/** `FastInserter::Base`: shapes the input rows, cuts them into groups, and for each
    group renders and executes one multi-row INSERT, optionally after dropping the rows
    a SELECT finds already present under the same static-column values. */
module FastInserter {
  import opened Optional
  import opened Text
  import opened Lists
  import opened OrderedHash
  import opened Sql
  import opened Storage

  const DEFAULT_GROUP_SIZE: int := 1000

  // ---------------------------------------------------------------------------
  // Input

  /** A column parameter: a single name or a list of names. */
  datatype Columns = Name(name: string) | Names(names: seq<string>)

  /** One element of `params[:values]`: a scalar or an array. */
  datatype RawValue = Scalar(v: Value) | Tuple(vs: seq<Value>)

  /** `params[:options]`; a missing option is false. */
  datatype Options = Options(unique: bool, checkForExisting: bool, timestamps: bool)

  datatype Params = Params(
    table: string,
    staticColumns: Hash<Value>,
    additionalColumns: Hash<Value>,
    variableColumns: Option<Columns>,
    variableColumn: Option<Columns>,
    values: seq<RawValue>,
    options: Options,
    groupSize: Option<int>)

  /** Ruby's `Array(x)` on a column parameter: nil gives no columns. */
  function ColumnList(c: Option<Columns>): seq<string>
  {
    match c
    case None => []
    case Some(Name(n)) => [n]
    case Some(Names(ns)) => ns
  }

  /** `Array(params[:variable_columns] || params[:variable_column])` */
  function VariableColumnsOf(p: Params): seq<string>
  {
    ColumnList(if p.variableColumns.Some? then p.variableColumns else p.variableColumn)
  }

  /** Ruby's `Array(value)`: nil becomes the empty tuple, another scalar a 1-tuple,
      an array stays as it is. */
  function ToTuple(x: RawValue): seq<Value>
  {
    match x
    case Scalar(Null) => []
    case Scalar(v) => [v]
    case Tuple(vs) => vs
  }

  function TupledValues(p: Params): (r: seq<seq<Value>>)
    ensures |r| == |p.values|
  {
    seq(|p.values|, i requires 0 <= i < |p.values| => ToTuple(p.values[i]))
  }

  /** The row list the groups are cut from: tupled, and deduplicated with `unique`. */
  function ShapedValues(p: Params): (r: seq<seq<Value>>)
    ensures forall x :: x in r <==> x in TupledValues(p)
    ensures p.options.unique ==> NoDuplicates(r)
    ensures !p.options.unique ==> r == TupledValues(p)
  {
    if p.options.unique then Uniq(TupledValues(p)) else TupledValues(p)
  }

  /** `params[:group_size] || ENV['FAST_INSERTER_GROUP_SIZE'] || DEFAULT_GROUP_SIZE` */
  function GroupSize(param: Option<int>, env: Option<int>): int
  {
    if param.Some? then param.value else if env.Some? then env.value else DEFAULT_GROUP_SIZE
  }

  // ---------------------------------------------------------------------------
  // What an inserter is configured with, once constructed

  /** The instance fields the statements depend on, and the two database primitives:
      `quote` stands for `sanitize_sql_array(["?", v])` on one scalar and `normalize`
      for the `type_cast` applied to values before they are compared. */
  datatype Setup = Setup(
    table: string,
    staticColumns: Hash<Value>,
    additionalColumns: Hash<Value>,
    variableColumns: seq<string>,
    options: Options,
    quote: Value -> string,
    normalize: Value -> Value)

  function NormalizeRow(row: seq<Value>, normalize: Value -> Value): seq<Value>
  {
    seq(|row|, i requires 0 <= i < |row| => normalize(row[i]))
  }

  /** `stringify_values` */
  function StringifyValues(rows: seq<seq<Value>>, normalize: Value -> Value): (r: seq<seq<Value>>)
    ensures |r| == |rows| && forall i :: 0 <= i < |rows| ==> |r[i]| == |rows[i]|
  {
    seq(|rows|, i requires 0 <= i < |rows| => NormalizeRow(rows[i], normalize))
  }

  // ---------------------------------------------------------------------------
  // Static columns

  function TimestampPairs(timestamps: bool, now: int): Hash<Value>
  {
    if timestamps then [("created_at", Time(now)), ("updated_at", Time(now))] else []
  }

  /** `all_static_columns` computed with the clock reading `now`: the static columns,
      then both timestamps, then the additional columns, each stored into one hash. */
  function StaticColumnSet(su: Setup, now: int): Hash<Value>
  {
    StoreAll(StoreAll(su.staticColumns, TimestampPairs(su.options.timestamps, now)), su.additionalColumns)
  }

  /** What `all_static_columns` returns when asked with the clock reading `now`: the
      memoised hash if there is one, otherwise a fresh one. */
  function Memoised(memo: Option<Hash<Value>>, su: Setup, now: int): Hash<Value>
  {
    if memo.Some? then memo.value else StaticColumnSet(su, now)
  }

  /** When no key repeats, the static-column hash is the static columns, the two
      timestamps and the additional columns, in that order. */
  lemma StaticColumnSetLayout(su: Setup, now: int)
    requires NoDuplicates(Keys(su.staticColumns) + Keys(TimestampPairs(su.options.timestamps, now)) + Keys(su.additionalColumns))
    ensures StaticColumnSet(su, now) == su.staticColumns + TimestampPairs(su.options.timestamps, now) + su.additionalColumns
  {
    var st, ts, ad := su.staticColumns, TimestampPairs(su.options.timestamps, now), su.additionalColumns;
    assert Keys(st) + Keys(ts) + Keys(ad) == (Keys(st) + Keys(ts)) + Keys(ad);
    NoDuplicatesSplit(Keys(st) + Keys(ts), Keys(ad), "");
    StoreAllFresh(st, ts);
    KeysAppend(st, ts);
    StoreAllFresh(st + ts, ad);
  }

  lemma {:induction false} StoreAllKeepsOtherKeys(h: Hash<Value>, pairs: Hash<Value>, k: string)
    requires k !in Keys(pairs)
    ensures Lookup(StoreAll(h, pairs), k) == Lookup(h, k)
  {
    if |pairs| > 0 {
      var init := pairs[..|pairs| - 1];
      assert Keys(pairs) == Keys(init) + [pairs[|pairs| - 1].0];
      StoreAllKeepsOtherKeys(h, init, k);
    }
  }

  /** Storing the timestamp pairs stores `created_at`, then `updated_at`. */
  lemma StoreTimestamps(h: Hash<Value>, timestamps: bool, now: int)
    ensures StoreAll(h, TimestampPairs(timestamps, now))
      == if timestamps then Store(Store(h, "created_at", Time(now)), "updated_at", Time(now)) else h
  {
    var ts := TimestampPairs(timestamps, now);
    if timestamps {
      assert ts[..1] == [ts[0]] && ts[..1][..0] == [];
      assert StoreAll(h, ts[..1]) == Store(StoreAll(h, []), "created_at", Time(now));
    }
  }

  /** With timestamps on, `created_at` and `updated_at` hold the same single clock
      reading, whatever the static columns hold, unless an additional column overrides them. */
  lemma StaticColumnSetTimestamps(su: Setup, now: int)
    requires su.options.timestamps
    requires "created_at" !in Keys(su.additionalColumns) && "updated_at" !in Keys(su.additionalColumns)
    ensures Lookup(StaticColumnSet(su, now), "created_at") == Some(Time(now))
    ensures Lookup(StaticColumnSet(su, now), "updated_at") == Some(Time(now))
  {
    StoreTimestamps(su.staticColumns, true, now);
    var h := StoreAll(su.staticColumns, TimestampPairs(true, now));
    StoreAllKeepsOtherKeys(h, su.additionalColumns, "created_at");
    StoreAllKeepsOtherKeys(h, su.additionalColumns, "updated_at");
  }

  // ---------------------------------------------------------------------------
  // Existence query

  /** `values[index]`, nil past the end. */
  function At(values: seq<Value>, i: nat): Value
  {
    if i < |values| then values[i] else Null
  }

  /** `variable_column_values_to_hash`: each variable column stored with the value at its
      position; its keys are the variable columns without repeats, in first-seen order. */
  function ColumnValuesHash(columns: seq<string>, values: seq<Value>): (h: Hash<Value>)
    ensures Keys(h) == Uniq(columns)
  {
    if |columns| == 0 then []
    else
      var n := |columns| - 1;
      Store(ColumnValuesHash(columns[..n], values), columns[n], At(values, n))
  }

  /** With distinct variable columns the hash pairs each column with its position's value. */
  lemma {:induction false} ColumnValuesHashZip(columns: seq<string>, values: seq<Value>)
    requires NoDuplicates(columns)
    ensures ColumnValuesHash(columns, values) == seq(|columns|, i requires 0 <= i < |columns| => (columns[i], At(values, i)))
  {
    if |columns| > 0 {
      var n := |columns| - 1;
      NoDuplicatesSplit(columns[..n], [columns[n]], columns[n]);
      assert columns[..n] + [columns[n]] == columns;
      ColumnValuesHashZip(columns[..n], values);
    }
  }

  function FirstColumn(columns: seq<string>): string
  {
    if |columns| == 0 then "" else columns[0]
  }

  /** The predicate of the existence query: the static columns, then the group's tuples. */
  function WhereFor(su: Setup, group: seq<seq<Value>>): Where
  {
    Where(
      AtomsOf(su.staticColumns),
      if |su.variableColumns| > 1 then
        AnyOf(seq(|group|, i requires 0 <= i < |group| => AtomsOf(ColumnValuesHash(su.variableColumns, group[i]))))
      else
        InList(FirstColumn(su.variableColumns), Flatten(group)))
  }

  /** The existence query is valid SQL only when it names a table, has a static conjunct
      to follow `WHERE` and a column to select, and names no column by the empty string. */
  predicate QueryWellFormed(su: Setup)
  {
    su.table != "" && |su.staticColumns| > 0 && |su.variableColumns| >= 1
    && "" !in Keys(su.staticColumns) && "" !in su.variableColumns
  }

  /** `existing_values_sql` */
  function ExistingValuesSql(su: Setup, group: seq<seq<Value>>): string
  {
    var sql := "SELECT " + Join(su.variableColumns, ", ") + " FROM " + su.table
      + " WHERE " + ValuesHashToSql(su.staticColumns, su.quote);
    var groupCheck :=
      if |su.variableColumns| > 1 then
        "(" + Join(seq(|group|, i requires 0 <= i < |group| =>
          "(" + ValuesHashToSql(ColumnValuesHash(su.variableColumns, group[i]), su.quote) + ")"), " OR ") + ")"
      else
        FirstColumn(su.variableColumns) + " IN (" + SanitizeArray(Flatten(group), su.quote) + ")";
    sql + " AND " + groupCheck
  }

  /** With static columns present, the query text is `SELECT <variable columns> FROM <table>
      WHERE ` followed by the rendering of WhereFor: the static conjuncts and the tuple filter. */
  lemma ExistingValuesSqlRendersWhere(su: Setup, group: seq<seq<Value>>)
    requires |su.staticColumns| > 0
    ensures ExistingValuesSql(su, group)
      == "SELECT " + Join(su.variableColumns, ", ") + " FROM " + su.table + " WHERE " + RenderWhere(WhereFor(su, group), su.quote)
  {
    var w := WhereFor(su, group);
    var f := RenderFilter(w.filter, su.quote);
    JoinConcat(RenderAtoms(w.scope, su.quote), [f], " AND ");
    var head := "SELECT " + Join(su.variableColumns, ", ") + " FROM " + su.table + " WHERE ";
    var scope := ValuesHashToSql(su.staticColumns, su.quote);
    assert Join([f], " AND ") == f;
    assert head + (scope + " AND " + f) == head + scope + " AND " + f;
    if |su.variableColumns| > 1 {
      AnyOfRendering(su, group);
    }
  }

  /** With several variable columns the tuple filter renders as the parenthesised
      disjunction of the per-tuple conjunctions. */
  lemma AnyOfRendering(su: Setup, group: seq<seq<Value>>)
    requires |su.variableColumns| > 1
    ensures RenderFilter(WhereFor(su, group).filter, su.quote)
      == "(" + Join(seq(|group|, i requires 0 <= i < |group| =>
           "(" + ValuesHashToSql(ColumnValuesHash(su.variableColumns, group[i]), su.quote) + ")"), " OR ") + ")"
  {
    var ds := WhereFor(su, group).filter.disjuncts;
    assert seq(|ds|, i requires 0 <= i < |ds| => "(" + Join(RenderAtoms(ds[i], su.quote), " AND ") + ")")
      == seq(|group|, i requires 0 <= i < |group| =>
           "(" + ValuesHashToSql(ColumnValuesHash(su.variableColumns, group[i]), su.quote) + ")");
  }

  /** The conjunction built for one tuple holds exactly when the record's projection is
      that tuple. */
  lemma TupleAtomsSelect(columns: seq<string>, t: seq<Value>, r: Record)
    requires NoDuplicates(columns) && |t| == |columns|
    ensures EvalAtoms(AtomsOf(ColumnValuesHash(columns, t)), r) <==> Project(r, columns) == t
  {
    var h := ColumnValuesHash(columns, t);
    var p := Project(r, columns);
    ColumnValuesHashZip(columns, t);
    AtomsOfMeaning(h, r);
    forall j | 0 <= j < |columns|
      ensures h[j] == (columns[j], t[j]) && p[j] == Get(r, columns[j])
    {
    }
  }

  /** With several variable columns, a record passes the tuple filter exactly when its
      projection is one of the group's rows. */
  lemma TupleFilterSelects(su: Setup, group: seq<seq<Value>>, r: Record)
    requires |su.variableColumns| > 1 && NoDuplicates(su.variableColumns)
    requires forall t :: t in group ==> |t| == |su.variableColumns|
    ensures EvalFilter(WhereFor(su, group).filter, r) <==> Project(r, su.variableColumns) in group
  {
    var vc := su.variableColumns;
    var ds := WhereFor(su, group).filter.disjuncts;
    forall i | 0 <= i < |group|
      ensures EvalAtoms(ds[i], r) <==> Project(r, vc) == group[i]
    {
      TupleAtomsSelect(vc, group[i], r);
    }
  }

  /** With one variable column, a record passes the `IN` filter exactly when its
      projection is one of the group's rows, provided no row is nil. */
  lemma InFilterSelects(su: Setup, group: seq<seq<Value>>, r: Record)
    requires |su.variableColumns| == 1
    requires forall t :: t in group ==> |t| == 1 && t[0] != Null
    ensures EvalFilter(WhereFor(su, group).filter, r) <==> Project(r, su.variableColumns) in group
  {
    var c := su.variableColumns[0];
    var v := Get(r, c);
    FlattenMembership(group, v);
    assert Project(r, su.variableColumns) == [v];
    if [v] in group {
      assert v in [v];
    }
    if v != Null && v in Flatten(group) {
      var g :| g in group && v in g;
      assert g == [g[0]];
    }
  }

  /** The existence query selects exactly the records that hold the static values (NULL
      included) and whose variable-column tuple is one of the group's rows, provided every
      row fills the distinct variable columns and, with a single column, is not nil
      (`IN (NULL)` matches nothing). */
  lemma ExistenceQuerySelects(su: Setup, group: seq<seq<Value>>, r: Record)
    requires |su.variableColumns| >= 1 && NoDuplicates(su.variableColumns)
    requires forall t :: t in group ==> |t| == |su.variableColumns|
    requires |su.variableColumns| == 1 ==> forall t :: t in group ==> t[0] != Null
    ensures Eval(WhereFor(su, group), r) <==> Matches(r, su.staticColumns) && Project(r, su.variableColumns) in group
  {
    AtomsOfMeaning(su.staticColumns, r);
    if |su.variableColumns| > 1 {
      TupleFilterSelects(su, group, r);
    } else {
      InFilterSelects(su, group, r);
    }
  }

  // ---------------------------------------------------------------------------
  // INSERT rendering

  /** `static_column_values`: the quoted static values and a trailing comma, or nothing
      when the static-column hash is empty. */
  function StaticValuesSql(allStatic: Hash<Value>, quote: Value -> string): (r: string)
    ensures r == "" <==> |allStatic| == 0
    ensures |allStatic| > 0 ==> r[|r| - 1] == ','
  {
    if |allStatic| > 0 then SanitizeArray(Vals(allStatic), quote) + "," else ""
  }

  /** One parenthesised tuple of `insert_values`. */
  function RowSql(prefix: string, row: seq<Value>, quote: Value -> string): string
  {
    "(" + prefix + Join(QuoteAll(row, quote), ",") + ")"
  }

  function InsertValuesSql(allStatic: Hash<Value>, rows: seq<seq<Value>>, quote: Value -> string): string
  {
    var prefix := StaticValuesSql(allStatic, quote);
    Join(seq(|rows|, i requires 0 <= i < |rows| => RowSql(prefix, rows[i], quote)), ", ")
  }

  /** `column_names` */
  function ColumnNamesSql(allStatic: Hash<Value>, variableColumns: seq<string>): string
  {
    Join(Keys(allStatic) + variableColumns, ", ")
  }

  /** `insertion_sql_for_group` */
  function InsertionSql(su: Setup, allStatic: Hash<Value>, rows: seq<seq<Value>>): string
  {
    "INSERT INTO " + su.table + " (" + ColumnNamesSql(allStatic, su.variableColumns) + ") VALUES "
      + InsertValuesSql(allStatic, rows, su.quote)
  }

  /** The columns an INSERT names and the value tuples it carries, position by position. */
  function InsertColumns(allStatic: Hash<Value>, variableColumns: seq<string>): seq<string>
  {
    Keys(allStatic) + variableColumns
  }

  function FullTuples(allStatic: Hash<Value>, rows: seq<seq<Value>>): seq<seq<Value>>
  {
    seq(|rows|, i requires 0 <= i < |rows| => Vals(allStatic) + rows[i])
  }

  /** Each tuple lists the quoted static values followed by the row's own quoted values,
      one item per column of the column list when the row fills the variable columns
      (an empty row after static values would leave a dangling comma). */
  lemma RowSqlAligned(allStatic: Hash<Value>, variableColumns: seq<string>, row: seq<Value>, quote: Value -> string)
    requires |row| > 0 || |allStatic| == 0
    ensures RowSql(StaticValuesSql(allStatic, quote), row, quote) == "(" + Join(QuoteAll(Vals(allStatic) + row, quote), ",") + ")"
    ensures |row| == |variableColumns| ==> |Vals(allStatic) + row| == |InsertColumns(allStatic, variableColumns)|
  {
    var s := Vals(allStatic);
    if |allStatic| == 0 {
      assert s + row == row;
    } else {
      assert QuoteAll(s + row, quote) == QuoteAll(s, quote) + QuoteAll(row, quote);
      JoinConcat(QuoteAll(s, quote), QuoteAll(row, quote), ",");
    }
  }

  // ---------------------------------------------------------------------------
  // Effect of one group and of a whole run on the table and the statement log

  datatype Effect = Effect(records: seq<Record>, statements: seq<string>, ok: bool)

  /** The INSERT text is valid SQL only when it names a table, names no column by the
      empty string, and no row is empty: an empty row leaves the tuple `(<static values>,)`
      with a dangling comma, or `()`. */
  predicate InsertionWellFormed(su: Setup, allStatic: Hash<Value>, rows: seq<seq<Value>>)
  {
    su.table != "" && "" !in InsertColumns(allStatic, su.variableColumns)
    && forall i :: 0 <= i < |rows| ==> |rows[i]| > 0
  }

  /** One INSERT of `rows`; a text the database cannot parse, or tuples it cannot store,
      raise and change no record. */
  function InsertGroup(su: Setup, allStatic: Hash<Value>, records: seq<Record>, rows: seq<seq<Value>>): (e: Effect)
    ensures e.ok ==> InsertionWellFormed(su, allStatic, rows) && |rows| > 0
    ensures e.ok ==> records <= e.records && |e.records| == |records| + |rows|
    ensures !e.ok ==> e.records == records
  {
    var columns := InsertColumns(allStatic, su.variableColumns);
    var tuples := FullTuples(allStatic, rows);
    var ok := InsertionWellFormed(su, allStatic, rows) && InsertAccepted(columns, tuples);
    Effect(if ok then records + RecordsOf(columns, tuples) else records, [InsertionSql(su, allStatic, rows)], ok)
  }

  /** `fast_insert_group`: with the existence check, the normalised rows no existing row
      equals are inserted, and nothing when there are none; a query the database cannot
      parse raises before anything is inserted. A group that raises changes no record;
      one that succeeds only appends, after at most two statements, the query first. */
  function GroupEffect(su: Setup, allStatic: Hash<Value>, records: seq<Record>, group: seq<seq<Value>>): (e: Effect)
    ensures !e.ok ==> e.records == records
    ensures e.ok ==> records <= e.records
    ensures 1 <= |e.statements| <= 2
    ensures su.options.checkForExisting ==> e.statements[0] == ExistingValuesSql(su, group)
  {
    if su.options.checkForExisting && !QueryWellFormed(su) then
      Effect(records, [ExistingValuesSql(su, group)], false)
    else if su.options.checkForExisting then
      var existing := StringifyValues(SelectRows(records, WhereFor(su, group), su.variableColumns), su.normalize);
      var nonExisting := Difference(StringifyValues(group, su.normalize), existing);
      var select := ExistingValuesSql(su, group);
      if |nonExisting| == 0 then Effect(records, [select], true)
      else
        var e := InsertGroup(su, allStatic, records, nonExisting);
        Effect(e.records, [select] + e.statements, e.ok)
    else
      InsertGroup(su, allStatic, records, group)
  }

  datatype Run = Run(records: seq<Record>, statements: seq<string>, failedGroup: Option<nat>)

  /** What one group does to the table, given the static-column hash, as a step of a run. */
  type Step = (Hash<Value>, seq<Record>, seq<seq<Value>>) -> Effect

  function GroupStep(su: Setup): Step
  {
    (allStatic: Hash<Value>, records: seq<Record>, group: seq<seq<Value>>) => GroupEffect(su, allStatic, records, group)
  }

  /** `step` does what GroupEffect does for the configuration `su`. */
  ghost predicate IsGroupStep(step: Step, su: Setup)
  {
    forall allStatic, records, group {:trigger GroupEffect(su, allStatic, records, group)} ::
      step(allStatic, records, group) == GroupEffect(su, allStatic, records, group)
  }

  /** `fast_insert` up to the first `n` groups: the groups in order, stopping at the first
      one that fails, which is then one of those `n` groups. */
  function RunGroups(step: Step, allStatic: Hash<Value>, records: seq<Record>, groups: seq<seq<seq<Value>>>, n: nat): (r: Run)
    requires n <= |groups|
    ensures r.failedGroup.Some? ==> r.failedGroup.value < n
  {
    if n == 0 then Run(records, [], None)
    else
      var prev := RunGroups(step, allStatic, records, groups, n - 1);
      if prev.failedGroup.Some? then prev
      else
        var e := step(allStatic, prev.records, groups[n - 1]);
        Run(e.records, prev.statements + e.statements, if e.ok then None else Some(n - 1))
  }

  /** Once a group has failed, the later groups change nothing. */
  lemma {:induction false} RunGroupsStopsAtFailure(step: Step, allStatic: Hash<Value>, records: seq<Record>, groups: seq<seq<seq<Value>>>, j: nat, n: nat)
    requires j <= n <= |groups|
    requires RunGroups(step, allStatic, records, groups, j).failedGroup.Some?
    ensures RunGroups(step, allStatic, records, groups, n) == RunGroups(step, allStatic, records, groups, j)
  {
    if j < n {
      RunGroupsStopsAtFailure(step, allStatic, records, groups, j, n - 1);
    }
  }

  /** A run of the first `n` groups depends only on those groups. */
  lemma {:induction false} RunGroupsPrefix(step: Step, allStatic: Hash<Value>, records: seq<Record>, groups: seq<seq<seq<Value>>>, n: nat)
    requires n <= |groups|
    ensures RunGroups(step, allStatic, records, groups[..n], n) == RunGroups(step, allStatic, records, groups, n)
    decreases n
  {
    if n > 0 {
      RunGroupsPrefix(step, allStatic, records, groups, n - 1);
      assert groups[..n][..n - 1] == groups[..n - 1];
      RunGroupsPrefix(step, allStatic, records, groups[..n], n - 1);
    }
  }

  /** A group whose existence query the database rejects fails and changes no record. */
  lemma RejectedQueryFails(step: Step, su: Setup, allStatic: Hash<Value>, records: seq<Record>, group: seq<seq<Value>>)
    requires IsGroupStep(step, su) && su.options.checkForExisting && !QueryWellFormed(su)
    ensures !step(allStatic, records, group).ok
    ensures step(allStatic, records, group).records == records
    ensures step(allStatic, records, group).statements == [ExistingValuesSql(su, group)]
  {
    assert step(allStatic, records, group) == GroupEffect(su, allStatic, records, group);
  }

  // ---------------------------------------------------------------------------
  // The inserter object

  class Base {
    const tableName: string
    const staticColumns: Hash<Value>
    const additionalColumns: Hash<Value>
    const variableColumns: seq<string>
    const options: Options
    const valueGroups: seq<seq<seq<Value>>>
    const quote: Value -> string
    const normalize: Value -> Value
    /** What one group does to the table: GroupEffect for this configuration. */
    ghost const groupStep: Step
    /** The memoised `@all_static_columns`; None until first asked for. */
    var allStaticColumns: Option<Hash<Value>>

    function Config(): Setup
    {
      Setup(tableName, staticColumns, additionalColumns, variableColumns, options, quote, normalize)
    }

    /** The existence check is on but its query cannot be written: every group raises
        before the static columns are computed. */
    predicate QueryRejected()
    {
      options.checkForExisting && !QueryWellFormed(Config())
    }

    /** `groupStep` is GroupEffect for this inserter's configuration. */
    ghost predicate StepIsGroupEffect()
    {
      IsGroupStep(groupStep, Config())
    }

    /** `initialize`; `envGroupSize` is the environment's group size, `quote` and
        `normalize` the connection's sanitiser and type cast. */
    constructor (params: Params, envGroupSize: Option<int>, quote: Value -> string, normalize: Value -> Value)
      requires GroupSize(params.groupSize, envGroupSize) >= 1
      ensures tableName == params.table && staticColumns == params.staticColumns
      ensures additionalColumns == params.additionalColumns && options == params.options
      ensures variableColumns == VariableColumnsOf(params)
      ensures this.quote == quote && this.normalize == normalize
      ensures valueGroups == InGroupsOf(ShapedValues(params), GroupSize(params.groupSize, envGroupSize))
      ensures Flatten(valueGroups) == ShapedValues(params)
      ensures allStaticColumns == None
      ensures StepIsGroupEffect()
    {
      tableName := params.table;
      staticColumns := params.staticColumns;
      additionalColumns := params.additionalColumns;
      variableColumns := VariableColumnsOf(params);
      options := params.options;
      this.quote := quote;
      this.normalize := normalize;
      var allValues := TupledValues(params);
      if params.options.unique {
        allValues := Uniq(allValues);
      }
      valueGroups := InGroupsOf(allValues, GroupSize(params.groupSize, envGroupSize));
      groupStep := GroupStep(Setup(params.table, params.staticColumns, params.additionalColumns,
        VariableColumnsOf(params), params.options, quote, normalize));
      allStaticColumns := None;
    }

    /** `all_static_columns`: computed once, with the clock reading of the first call. */
    method AllStaticColumns(now: int) returns (columns: Hash<Value>)
      modifies this`allStaticColumns
      ensures columns == Memoised(old(allStaticColumns), Config(), now)
      ensures allStaticColumns == Some(columns)
    {
      if allStaticColumns.Some? {
        return allStaticColumns.value;
      }
      var rv := staticColumns;
      ghost var stamps := TimestampPairs(options.timestamps, now);
      if options.timestamps {
        var time := Time(now);
        rv := Store(rv, "created_at", time);
        rv := Store(rv, "updated_at", time);
      }
      StoreTimestamps(staticColumns, options.timestamps, now);
      assert rv == StoreAll(staticColumns, stamps);
      var i := 0;
      while i < |additionalColumns|
        invariant 0 <= i <= |additionalColumns|
        invariant rv == StoreAll(StoreAll(staticColumns, stamps), additionalColumns[..i])
      {
        StoreAllPrefix(StoreAll(staticColumns, stamps), additionalColumns, i);
        rv := Store(rv, additionalColumns[i].0, additionalColumns[i].1);
        i := i + 1;
      }
      assert additionalColumns[..i] == additionalColumns;
      allStaticColumns := Some(rv);
      columns := rv;
    }

    /** `variable_column_values_to_hash` */
    method VariableColumnValuesToHash(values: seq<Value>) returns (hash: Hash<Value>)
      ensures hash == ColumnValuesHash(variableColumns, values)
    {
      hash := [];
      var index := 0;
      while index < |variableColumns|
        invariant 0 <= index <= |variableColumns|
        invariant hash == ColumnValuesHash(variableColumns[..index], values)
      {
        assert variableColumns[..index + 1][..index] == variableColumns[..index];
        hash := Store(hash, variableColumns[index], At(values, index));
        index := index + 1;
      }
      assert variableColumns[..index] == variableColumns;
    }

    /** `insert_values`, given the static-column hash it reads. */
    method InsertValues(allStatic: Hash<Value>, group: seq<seq<Value>>) returns (sql: string)
      ensures sql == InsertValuesSql(allStatic, group, quote)
    {
      var rv: seq<string> := [];
      var staticColumnValues := StaticValuesSql(allStatic, quote);
      var i := 0;
      while i < |group|
        invariant 0 <= i <= |group|
        invariant rv == seq(i, k requires 0 <= k < i => RowSql(staticColumnValues, group[k], quote))
      {
        var values := QuoteAll(group[i], quote);
        rv := rv + ["(" + staticColumnValues + Join(values, ",") + ")"];
        i := i + 1;
      }
      sql := Join(rv, ", ");
    }

    /** `insertion_sql_for_group` */
    method InsertionSqlForGroup(group: seq<seq<Value>>, now: int) returns (sql: string)
      modifies this`allStaticColumns
      ensures allStaticColumns == Some(Memoised(old(allStaticColumns), Config(), now))
      ensures sql == InsertionSql(Config(), allStaticColumns.value, group)
    {
      var allStatic := AllStaticColumns(now);
      var values := InsertValues(allStatic, group);
      sql := "INSERT INTO " + tableName + " (" + Join(Keys(allStatic) + variableColumns, ", ") + ") VALUES " + values;
    }

    /** `existing_values`: runs the existence query and normalises what it returns; `ok`
        is false when the database rejects the query. */
    method ExistingValues(group: seq<seq<Value>>, db: Database) returns (ok: bool, existing: seq<seq<Value>>)
      modifies db`log
      ensures db.log == old(db.log) + [ExistingValuesSql(Config(), group)]
      ensures ok == QueryWellFormed(Config())
      ensures ok ==> existing == StringifyValues(SelectRows(db.records, WhereFor(Config(), group), variableColumns), normalize)
    {
      var sql := ExistingValuesSql(Config(), group);
      var query := if QueryWellFormed(Config()) then Some(WhereFor(Config(), group)) else None;
      var results;
      ok, results := db.Select(sql, query, variableColumns);
      existing := StringifyValues(results, normalize);
    }

    /** `fast_insert_group`; `now` is the clock reading should the static columns be
        computed here. With the existence check, query and insert form one transaction. */
    method FastInsertGroup(group: seq<seq<Value>>, now: int, db: Database) returns (ok: bool)
      requires StepIsGroupEffect()
      modifies this`allStaticColumns, db
      ensures allStaticColumns == if QueryRejected() then old(allStaticColumns) else Some(Memoised(old(allStaticColumns), Config(), now))
      ensures var e := groupStep(Memoised(old(allStaticColumns), Config(), now), old(db.records), group);
        db.records == e.records && db.log == old(db.log) + e.statements && ok == e.ok
    {
      if options.checkForExisting {
        var queried, existing := ExistingValues(group, db);
        if !queried {
          ok := false;
          assert groupStep(Memoised(old(allStaticColumns), Config(), now), old(db.records), group)
            == GroupEffect(Config(), Memoised(old(allStaticColumns), Config(), now), old(db.records), group);
          return;
        }
        var nonExistingValues := Difference(StringifyValues(group, normalize), existing);
        var sql := InsertionSqlForGroup(nonExistingValues, now);
        var allStatic := allStaticColumns.value;
        if |nonExistingValues| > 0 {
          ok := db.Insert(sql, InsertionWellFormed(Config(), allStatic, nonExistingValues), InsertColumns(allStatic, variableColumns), FullTuples(allStatic, nonExistingValues));
        } else {
          ok := true;
        }
      } else {
        var sql := InsertionSqlForGroup(group, now);
        var allStatic := allStaticColumns.value;
        ok := db.Insert(sql, InsertionWellFormed(Config(), allStatic, group), InsertColumns(allStatic, variableColumns), FullTuples(allStatic, group));
      }
      assert groupStep(allStaticColumns.value, old(db.records), group)
        == GroupEffect(Config(), allStaticColumns.value, old(db.records), group);
    }

    /** `fast_insert`: nothing when there are no groups; otherwise each group once, in
        order, group `i` reading the clock as `clock[i]`. A failing group raises: the
        groups before it stay inserted and the ones after it are not attempted. */
    method FastInsert(clock: seq<int>, db: Database) returns (failedGroup: Option<nat>)
      requires StepIsGroupEffect()
      requires |clock| >= |valueGroups|
      modifies this`allStaticColumns, db
      ensures |valueGroups| == 0 ==>
        allStaticColumns == old(allStaticColumns) && db.records == old(db.records) && db.log == old(db.log) && failedGroup == None
      ensures |valueGroups| > 0 ==>
        allStaticColumns == (if QueryRejected() then old(allStaticColumns) else Some(Memoised(old(allStaticColumns), Config(), clock[0])))
      ensures |valueGroups| > 0 ==>
        var run := RunGroups(groupStep, Memoised(old(allStaticColumns), Config(), clock[0]), old(db.records), valueGroups, |valueGroups|);
        db.records == run.records && db.log == old(db.log) + run.statements && failedGroup == run.failedGroup
    {
      if |valueGroups| == 0 {
        return None;
      }
      ghost var allStatic := Memoised(allStaticColumns, Config(), clock[0]);
      failedGroup := None;
      var i := 0;
      while i < |valueGroups| && failedGroup.None?
        invariant 0 <= i <= |valueGroups|
        invariant allStaticColumns == if i == 0 || QueryRejected() then old(allStaticColumns) else Some(allStatic)
        invariant QueryRejected() && i > 0 ==> failedGroup.Some?
        invariant var run := RunGroups(groupStep, allStatic, old(db.records), valueGroups, i);
          db.records == run.records && db.log == old(db.log) + run.statements && failedGroup == run.failedGroup
      {
        ghost var prev := RunGroups(groupStep, allStatic, old(db.records), valueGroups, i);
        var ok := FastInsertGroup(valueGroups[i], clock[i], db);
        ghost var e := groupStep(allStatic, prev.records, valueGroups[i]);
        if QueryRejected() {
          RejectedQueryFails(groupStep, Config(), allStatic, prev.records, valueGroups[i]);
        }
        assert RunGroups(groupStep, allStatic, old(db.records), valueGroups, i + 1)
          == Run(e.records, prev.statements + e.statements, if e.ok then None else Some(i));
        if !ok {
          failedGroup := Some(i);
        }
        i := i + 1;
      }
      if failedGroup.Some? {
        RunGroupsStopsAtFailure(groupStep, allStatic, old(db.records), valueGroups, i, |valueGroups|);
      }
    }
  }
}

/** Column values, table records, and the WHERE predicates the inserter writes:
    the text each predicate renders to and the records it selects. */
module Sql {
  import opened Text
  import opened Lists
  import opened OrderedHash

  /** A scalar as Ruby hands it to ActiveRecord; `Null` is `nil`. */
  datatype Value = Null | Int(i: int) | Str(s: string) | Bool(b: bool) | Time(instant: int)

  /** A table row: column name to value; a column it lacks reads as NULL. */
  type Record = map<string, Value>

  function Get(r: Record, column: string): Value
  {
    if column in r then r[column] else Null
  }

  /** The row's values for `columns`, in that order, as a SELECT of those columns returns them. */
  function Project(r: Record, columns: seq<string>): seq<Value>
  {
    seq(|columns|, i requires 0 <= i < |columns| => Get(r, columns[i]))
  }

  /** Every column of `h` holds exactly its value in `r`, NULL included. */
  predicate Matches(r: Record, h: Hash<Value>)
  {
    forall i :: 0 <= i < |h| ==> Get(r, h[i].0) == h[i].1
  }

  /** The row an INSERT of `values` into `columns` creates. */
  function RecordOf(columns: seq<string>, values: seq<Value>): Record
    requires |columns| == |values|
  {
    if |columns| == 0 then map[]
    else
      RecordOf(columns[..|columns| - 1], values[..|values| - 1])[columns[|columns| - 1] := values[|values| - 1]]
  }

  /** With distinct columns every column reads back the value inserted into it. */
  lemma {:induction false} RecordOfAt(columns: seq<string>, values: seq<Value>, i: nat)
    requires |columns| == |values| && NoDuplicates(columns) && i < |columns|
    ensures Get(RecordOf(columns, values), columns[i]) == values[i]
  {
    var n := |columns| - 1;
    if i < n {
      NoDuplicatesSplit(columns[..n], [columns[n]], columns[n]);
      assert columns[..n] + [columns[n]] == columns;
      RecordOfAt(columns[..n], values[..n], i);
    }
  }

  // ---------------------------------------------------------------------------
  // Predicates

  /** One conjunct of a WHERE clause. */
  datatype Atom = IsNull(column: string) | Equals(column: string, value: Value)

  /** What selects the variable-column tuples of a group. */
  datatype Filter =
    | InList(column: string, values: seq<Value>)
    | AnyOf(disjuncts: seq<seq<Atom>>)

  /** `scope_1 AND ... AND scope_n AND filter` */
  datatype Where = Where(scope: seq<Atom>, filter: Filter)

  /** A nil value is compared with IS NULL, anything else with `=`. */
  function AtomOf(column: string, value: Value): Atom
  {
    if value.Null? then IsNull(column) else Equals(column, value)
  }

  function AtomsOf(h: Hash<Value>): seq<Atom>
  {
    seq(|h|, i requires 0 <= i < |h| => AtomOf(h[i].0, h[i].1))
  }

  // ---------------------------------------------------------------------------
  // Rendering; `quote` is the engine's literal syntax for one scalar

  function RenderAtom(a: Atom, quote: Value -> string): string
  {
    match a
    case IsNull(c) => c + " IS NULL"
    case Equals(c, v) => c + " = " + quote(v)
  }

  function RenderAtoms(atoms: seq<Atom>, quote: Value -> string): seq<string>
  {
    seq(|atoms|, i requires 0 <= i < |atoms| => RenderAtom(atoms[i], quote))
  }

  function QuoteAll(vs: seq<Value>, quote: Value -> string): seq<string>
  {
    seq(|vs|, i requires 0 <= i < |vs| => quote(vs[i]))
  }

  /** `sanitize_sql_array(["?", vs])` for an array: the quoted elements joined by commas,
      and the NULL literal for an empty array. */
  function SanitizeArray(vs: seq<Value>, quote: Value -> string): string
  {
    if |vs| == 0 then quote(Null) else Join(QuoteAll(vs, quote), ",")
  }

  /** `values_hash_to_sql`: one conjunct per key, in key order, joined by AND. */
  function ValuesHashToSql(h: Hash<Value>, quote: Value -> string): string
  {
    Join(RenderAtoms(AtomsOf(h), quote), " AND ")
  }

  function RenderFilter(f: Filter, quote: Value -> string): string
  {
    match f
    case InList(c, vs) => c + " IN (" + SanitizeArray(vs, quote) + ")"
    case AnyOf(ds) =>
      "(" + Join(seq(|ds|, i requires 0 <= i < |ds| => "(" + Join(RenderAtoms(ds[i], quote), " AND ") + ")"), " OR ") + ")"
  }

  function RenderWhere(w: Where, quote: Value -> string): string
  {
    Join(RenderAtoms(w.scope, quote) + [RenderFilter(w.filter, quote)], " AND ")
  }

  // ---------------------------------------------------------------------------
  // Meaning: which records a predicate selects. An `=` or IN against NULL is never true.

  predicate EvalAtom(a: Atom, r: Record)
  {
    match a
    case IsNull(c) => Get(r, c) == Null
    case Equals(c, v) => Get(r, c) != Null && Get(r, c) == v
  }

  predicate EvalAtoms(atoms: seq<Atom>, r: Record)
  {
    forall i :: 0 <= i < |atoms| ==> EvalAtom(atoms[i], r)
  }

  predicate EvalFilter(f: Filter, r: Record)
  {
    match f
    case InList(c, vs) => Get(r, c) != Null && Get(r, c) in vs
    case AnyOf(ds) => exists i :: 0 <= i < |ds| && EvalAtoms(ds[i], r)
  }

  predicate Eval(w: Where, r: Record)
  {
    EvalAtoms(w.scope, r) && EvalFilter(w.filter, r)
  }

  /** The conjunction written for a hash holds of a record exactly when every key holds
      its value, a nil value matching a NULL column: this is what IS NULL buys over `= NULL`. */
  lemma AtomsOfMeaning(h: Hash<Value>, r: Record)
    ensures EvalAtoms(AtomsOf(h), r) <==> Matches(r, h)
  {
    assert forall i :: 0 <= i < |h| ==> (EvalAtom(AtomsOf(h)[i], r) <==> Get(r, h[i].0) == h[i].1);
  }

  /** The text starts with `column = `. */
  predicate ComparesWithEquals(column: string, text: string)
  {
    |text| >= |column| + 3 && text[..|column| + 3] == column + " = "
  }

  /** A nil value renders as `key IS NULL` and never as `key = ...`; every other value
      renders as `key = <quoted value>`. */
  lemma ConjunctRendering(column: string, v: Value, quote: Value -> string)
    ensures RenderAtom(AtomOf(column, v), quote) == column + " IS NULL" <==> v.Null?
    ensures ComparesWithEquals(column, RenderAtom(AtomOf(column, v), quote)) <==> !v.Null?
    ensures !v.Null? ==> RenderAtom(AtomOf(column, v), quote) == column + " = " + quote(v)
  {
    var text := RenderAtom(AtomOf(column, v), quote);
    if v.Null? {
      assert text[|column| + 1] == 'I';
      assert (column + " = ")[|column| + 1] == '=';
    } else {
      assert text[|column| + 1] == '=';
      assert (column + " IS NULL")[|column| + 1] == 'I';
      assert text[..|column| + 3] == column + " = ";
    }
  }
}

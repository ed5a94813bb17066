/**
 * The database as the editor sees it: the statements it issues (in place of
 * knex query building) and a store whose answers depend only on the
 * statements issued so far.
 */
module Statements {
  import opened Text
  import opened Values
  import opened Fields
  import opened PrimaryKey

  /** An output row: `DT_RowId` plus what the readable fields wrote. */
  type OutRow = map<string, Value>

  /** A statement issued to the database. */
  datatype Statement =
    | Select(tables: seq<string>, columns: seq<string>, filter: Option<map<string, string>>)
    | Insert(table: string, values: map<string, Value>)
    | Update(table: string, values: map<string, Value>, where: map<string, string>)
    | Delete(table: string, conditions: seq<map<string, string>>)

  /**
   * The database's answers as functions of the statements issued so far:
   * the text of the key an insert returns (`res[0].toString()`), and the
   * rows a select returns (`None` when the result is falsy).
   */
  datatype Store = Store(insertId: seq<Statement> -> string, rows: seq<Statement> -> Option<seq<Row>>)

  /** The editor's configuration as one value: tables, key columns, fields, id prefix and separator. */
  datatype Config = Config(tables: seq<string>, pkey: seq<string>, fields: seq<Field>, idPrefix: string, sep: NonEmpty)

  /** The statement log after an operation, and what it returned or threw. */
  datatype Run<T> = Run(log: seq<Statement>, result: Result<T>)

  /** The statement a plan issues, if any. */
  function Emit(plan: Option<Statement>): (r: seq<Statement>)
  {
    if plan.Some? then [plan.value] else []
  }

  /** What one pass of a loop over the tables does to the run so far, given the table. */
  type TableStep<!T> = (Run<T>, string) -> Run<T>

  /** A loop over the first `n` tables, in order, starting from the run `start`. */
  function OverTables<T>(step: TableStep<T>, start: Run<T>, tables: seq<string>, n: nat): (r: Run<T>)
    requires n <= |tables|
    decreases n
  {
    if n == 0 then start else step(OverTables(step, start, tables, n - 1), tables[n - 1])
  }

  /** A property of runs that every pass keeps holds after the loop. */
  lemma {:induction false} OverTablesKeeps<T>(step: TableStep<T>, P: Run<T> -> bool, start: Run<T>, tables: seq<string>, n: nat)
    requires n <= |tables| && P(start)
    requires forall r, i :: 0 <= i < |tables| && P(r) ==> P(step(r, tables[i]))
    ensures P(OverTables(step, start, tables, n))
    decreases n
  {
    if n > 0 {
      OverTablesKeeps(step, P, start, tables, n - 1);
    }
  }

  /** When a pass leaves a failed run alone, the first failure ends the loop. */
  lemma {:induction false} OverTablesStopsAtFailure<T>(step: TableStep<T>, start: Run<T>, tables: seq<string>, m: nat, n: nat)
    requires m <= n <= |tables| && OverTables(step, start, tables, m).result.Failure?
    requires forall r: Run<T>, t :: r.result.Failure? ==> step(r, t) == r
    ensures OverTables(step, start, tables, n) == OverTables(step, start, tables, m)
    decreases n
  {
    if n > m {
      OverTablesStopsAtFailure(step, start, tables, m, n - 1);
    }
  }

  /** When a pass issues at most one statement, the loop issues at most one per table. */
  lemma {:induction false} OverTablesGrowth<T>(step: TableStep<T>, start: Run<T>, tables: seq<string>, n: nat)
    requires n <= |tables|
    requires forall r: Run<T>, t :: |step(r, t).log| <= |r.log| + 1
    ensures |OverTables(step, start, tables, n).log| <= |start.log| + n
    decreases n
  {
    if n > 0 {
      OverTablesGrowth(step, start, tables, n - 1);
    }
  }

  /** `id !== null ? pkeyToArray(id, true) : null`: the condition an id restricts a statement to. */
  function WhereOf(c: Config, id: Option<string>): (r: Result<Option<map<string, string>>>)
    ensures id.None? ==> r == Success(None)
    ensures id.Some? ==> (r.Success? <==> Decode(id.value, c.idPrefix, c.sep, c.pkey).Success?)
    ensures id.Some? && r.Success? ==> r.value == Some(Decode(id.value, c.idPrefix, c.sep, c.pkey).value)
  {
    match id
    case None => Success(None)
    case Some(v) =>
      match Decode(v, c.idPrefix, c.sep, c.pkey)
      case Success(m) => Success(Some(m))
      case Failure(e) => Failure(e)
  }

  /** `id !== null ? pkeyToArray(id, true) : null`, evaluated. */
  method WhereFor(c: Config, id: Option<string>) returns (r: Result<Option<map<string, string>>>)
    ensures r == WhereOf(c, id)
  {
    if id.None? {
      return Success(None);
    }
    var d := PkeyToArray(id.value, c.idPrefix, c.sep, c.pkey);
    if d.Failure? {
      return Failure(d.error);
    }
    r := Success(Some(d.value));
  }
}

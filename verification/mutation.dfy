/**
 * The mutation engine: the column set a write carries, the per-table insert
 * or update, the id threading of `_insertOrUpdate`, the composite-key check
 * of `_insert`, and the deletes of `_remove`.
 */
module Mutation {
  import opened Text
  import opened Values
  import opened Identifiers
  import opened Fields
  import opened PrimaryKey
  import opened Statements
  import opened Reader

  /** `where === null ? 'create' : 'edit'`. */
  function StageOf(where: Option<map<string, string>>): (r: Stage)
  {
    if where.None? then Create else Edit
  }

  /** The `set` object `_insertOrUpdateTable` builds: each applicable field, in order, stores its value under its bare column. */
  function SetOf(fields: seq<Field>, stage: Stage, values: Row): (r: map<string, Value>)
    decreases |fields|
  {
    if |fields| == 0 then map[]
    else
      var f := fields[|fields| - 1];
      var prior := SetOf(fields[..|fields| - 1], stage, values);
      if f.apply(stage, values) then prior[ColumnKey(f.dbField) := f.setValue(values)] else prior
  }

  /** Field `f` applies at `stage` and writes column `k`. */
  predicate Writes(f: Field, stage: Stage, values: Row, k: string)
  {
    f.apply(stage, values) && ColumnKey(f.dbField) == k
  }

  /** The set holds a column exactly when some applicable field writes it. */
  lemma {:induction false} SetOfKeys(fields: seq<Field>, stage: Stage, values: Row)
    ensures forall k :: k in SetOf(fields, stage, values) <==>
      exists i :: 0 <= i < |fields| && Writes(fields[i], stage, values, k)
  {
    if |fields| > 0 {
      var n := |fields| - 1;
      SetOfKeys(fields[..n], stage, values);
      forall k | k in SetOf(fields, stage, values)
        ensures exists i :: 0 <= i < |fields| && Writes(fields[i], stage, values, k)
      {
        if !Writes(fields[n], stage, values, k) {
          assert k in SetOf(fields[..n], stage, values);
          var i :| 0 <= i < n && Writes(fields[..n][i], stage, values, k);
          assert fields[i] == fields[..n][i];
        }
      }
      forall k, i | 0 <= i < |fields| && Writes(fields[i], stage, values, k)
        ensures k in SetOf(fields, stage, values)
      {
        if i < n {
          assert Writes(fields[..n][i], stage, values, k);
        }
      }
    }
  }

  /** Field `i` applies and no later applicable field writes the same column. */
  predicate LastSetter(fields: seq<Field>, stage: Stage, values: Row, i: nat)
    requires i < |fields|
  {
    fields[i].apply(stage, values) &&
    forall j :: i < j < |fields| ==> !Writes(fields[j], stage, values, ColumnKey(fields[i].dbField))
  }

  /** A column holds the value of the last applicable field writing it. */
  lemma {:induction false} SetOfLastWins(fields: seq<Field>, stage: Stage, values: Row, i: nat)
    requires i < |fields| && LastSetter(fields, stage, values, i)
    ensures ColumnKey(fields[i].dbField) in SetOf(fields, stage, values)
    ensures SetOf(fields, stage, values)[ColumnKey(fields[i].dbField)] == fields[i].setValue(values)
  {
    var n := |fields| - 1;
    if i < n {
      assert fields[..n][i] == fields[i];
      assert LastSetter(fields[..n], stage, values, i) by {
        forall j | i < j < n ensures !Writes(fields[..n][j], stage, values, ColumnKey(fields[i].dbField)) {
          assert fields[..n][j] == fields[j];
        }
      }
      SetOfLastWins(fields[..n], stage, values, i);
    }
  }

  /** The text "undefined" holds no dot. */
  lemma UndefinedIsBare()
    ensures Segment("undefined")
  {
    AbsentCharNotFound("undefined", '.', 0);
  }

  /** Columns are written without a db or table qualifier. */
  lemma SetKeysBare(fields: seq<Field>, stage: Stage, values: Row)
    ensures forall k :: k in SetOf(fields, stage, values) ==> Segment(k)
  {
    SetOfKeys(fields, stage, values);
    UndefinedIsBare();
    forall i | 0 <= i < |fields| ensures Segment(ColumnKey(fields[i].dbField)) {
      ColumnIsBare(fields[i].dbField);
    }
  }

  /** `_insertOrUpdateTable`'s loop building `set`. */
  method BuildSet(fields: seq<Field>, stage: Stage, values: Row) returns (columns: map<string, Value>)
    ensures columns == SetOf(fields, stage, values)
  {
    columns := map[];
    var i := 0;
    while i < |fields|
      invariant 0 <= i <= |fields|
      invariant columns == SetOf(fields[..i], stage, values)
    {
      assert fields[..i + 1][..i] == fields[..i];
      var field := fields[i];
      if field.apply(stage, values) {
        columns := columns[ColumnKey(field.dbField) := field.setValue(values)];
      }
      i := i + 1;
    }
    assert fields[..i] == fields;
  }

  /** The statement `_insertOrUpdateTable(table, values, where)` issues: none for an empty set, else an insert or an update. */
  function PlanTable(fields: seq<Field>, table: string, values: Row, where: Option<map<string, string>>): (r: Option<Statement>)
  {
    var columns := SetOf(fields, StageOf(where), values);
    if |columns| == 0 then None
    else if where.None? then Some(Insert(table, columns))
    else Some(Update(table, columns, where.value))
  }

  /**
   * Nothing is issued exactly when no field applies; otherwise without a
   * condition the table gets an insert, and with one an update restricted
   * to that condition.
   */
  lemma PlanTableShape(fields: seq<Field>, table: string, values: Row, where: Option<map<string, string>>)
    ensures PlanTable(fields, table, values, where).None? <==>
      forall i :: 0 <= i < |fields| ==> !fields[i].apply(StageOf(where), values)
    ensures var p := PlanTable(fields, table, values, where);
      where.None? && p.Some? ==> p.value.Insert? && p.value.table == table
    ensures var p := PlanTable(fields, table, values, where);
      where.Some? && p.Some? ==> p.value.Update? && p.value.table == table && p.value.where == where.value
  {
    SetOfKeys(fields, StageOf(where), values);
    forall i | 0 <= i < |fields| && fields[i].apply(StageOf(where), values)
      ensures ColumnKey(fields[i].dbField) in SetOf(fields, StageOf(where), values)
    {
      assert Writes(fields[i], StageOf(where), values, ColumnKey(fields[i].dbField));
    }
  }

  /**
   * One table of `_insertOrUpdate`'s loop, after a run that returned `prev`:
   * a known id is decoded into the condition (a failure throws), the table
   * gets its insert or update, and an id not known yet becomes the key an
   * insert returns.
   */
  function UpsertTable(c: Config, st: Store, values: Row, prev: Run<Option<string>>, table: string): (r: Run<Option<string>>)
  {
    match prev.result
    case Failure(_) => prev
    case Success(cur) =>
      match WhereOf(c, cur)
      case Failure(e) => Run(prev.log, Failure(e))
      case Success(where) =>
        var plan := PlanTable(c.fields, table, values, where);
        var log' := prev.log + Emit(plan);
        var res := if plan.Some? && plan.value.Insert? then Some(st.insertId(log')) else None;
        Run(log', Success(if cur.None? then res else cur))
  }

  /** `UpsertTable` as a pass of the loop over the tables. */
  function UpsertStepOf(c: Config, st: Store, values: Row): (r: TableStep<Option<string>>)
  {
    (prev: Run<Option<string>>, table: string) => UpsertTable(c, st, values, prev, table)
  }

  /** `_insertOrUpdate(id, values)` after its first `n` tables. */
  function Upsert(c: Config, st: Store, log: seq<Statement>, id: Option<string>, values: Row, n: nat): (r: Run<Option<string>>)
    requires n <= |c.tables|
  {
    OverTables(UpsertStepOf(c, st, values), Run(log, Success(id)), c.tables, n)
  }

  /** One more table. */
  lemma UpsertStep(c: Config, st: Store, log: seq<Statement>, id: Option<string>, values: Row, n: nat)
    requires n < |c.tables|
    ensures Upsert(c, st, log, id, values, n + 1) == UpsertTable(c, st, values, Upsert(c, st, log, id, values, n), c.tables[n])
  {
  }

  /** A failure stops the loop: nothing more is issued. */
  lemma UpsertFailureStays(c: Config, st: Store, log: seq<Statement>, id: Option<string>, values: Row, m: nat, n: nat)
    requires m <= n <= |c.tables| && Upsert(c, st, log, id, values, m).result.Failure?
    ensures Upsert(c, st, log, id, values, n) == Upsert(c, st, log, id, values, m)
  {
    OverTablesStopsAtFailure(UpsertStepOf(c, st, values), Run(log, Success(id)), c.tables, m, n);
  }

  /** A running id that does not decode throws at table `n`, and the whole run ends there. */
  lemma UpsertThrows(c: Config, st: Store, log: seq<Statement>, id: Option<string>, values: Row, n: nat)
    requires n < |c.tables| && Upsert(c, st, log, id, values, n).result.Success?
    requires WhereOf(c, Upsert(c, st, log, id, values, n).result.value).Failure?
    ensures var prev := Upsert(c, st, log, id, values, n);
      UpsertAll(c, st, log, id, values) == Run(prev.log, Failure(WhereOf(c, prev.result.value).error))
  {
    UpsertFailureStays(c, st, log, id, values, n + 1, |c.tables|);
  }

  /** Every table gets at most one statement. */
  lemma UpsertGrowth(c: Config, st: Store, log: seq<Statement>, id: Option<string>, values: Row, n: nat)
    requires n <= |c.tables|
    ensures |Upsert(c, st, log, id, values, n).log| <= |log| + n
  {
    OverTablesGrowth(UpsertStepOf(c, st, values), Run(log, Success(id)), c.tables, n);
  }

  /** Editing with an id that does not decode: nothing is issued, and the first table throws the arity error. */
  lemma UpsertEditingUndecodable(c: Config, st: Store, log: seq<Statement>, id: string, values: Row, n: nat)
    requires n <= |c.tables| && Decode(id, c.idPrefix, c.sep, c.pkey).Failure?
    ensures Upsert(c, st, log, Some(id), values, n) == Run(log, if n == 0 then Success(Some(id)) else Failure(KeyArityMismatch))
  {
    if n > 0 {
      var step := UpsertStepOf(c, st, values);
      assert step(Run(log, Success(Some(id))), c.tables[0]) == Run(log, Failure(KeyArityMismatch));
      UpsertFailureStays(c, st, log, Some(id), values, 1, n);
    }
  }

  /** `log'` is `log` followed only by updates restricted to `where`. */
  predicate UpdatesAfter(log: seq<Statement>, log': seq<Statement>, where: map<string, string>)
  {
    log <= log' && forall k :: |log| <= k < |log'| ==> log'[k].Update? && log'[k].where == where
  }

  /** A table of an editing run whose id decodes to `d` keeps the id and appends at most an update restricted to `d`. */
  lemma EditStep(c: Config, st: Store, log: seq<Statement>, id: string, values: Row, d: map<string, string>,
                 prev: Run<Option<string>>, table: string)
    requires Decode(id, c.idPrefix, c.sep, c.pkey) == Success(d)
    requires prev.result == Success(Some(id)) && UpdatesAfter(log, prev.log, d)
    ensures UpsertTable(c, st, values, prev, table).result == Success(Some(id))
    ensures UpdatesAfter(log, UpsertTable(c, st, values, prev, table).log, d)
  {
    PlanTableShape(c.fields, table, values, Some(d));
  }

  /** Editing with an id that decodes: the id is returned, and only updates restricted to the decoded id are appended. */
  lemma UpsertEditingDecodable(c: Config, st: Store, log: seq<Statement>, id: string, values: Row, n: nat)
    requires n <= |c.tables| && Decode(id, c.idPrefix, c.sep, c.pkey).Success?
    ensures Upsert(c, st, log, Some(id), values, n).result == Success(Some(id))
    ensures UpdatesAfter(log, Upsert(c, st, log, Some(id), values, n).log, Decode(id, c.idPrefix, c.sep, c.pkey).value)
  {
    var d := Decode(id, c.idPrefix, c.sep, c.pkey).value;
    var step := UpsertStepOf(c, st, values);
    var P := (r: Run<Option<string>>) => r.result == Success(Some(id)) && UpdatesAfter(log, r.log, d);
    forall r, i | 0 <= i < |c.tables| && P(r) ensures P(step(r, c.tables[i])) {
      EditStep(c, st, log, id, values, d, r, c.tables[i]);
    }
    OverTablesKeeps(step, P, Run(log, Success(Some(id))), c.tables, n);
  }

  /**
   * `log'` is `log` followed by an insert, which returned the key `x`, and
   * then updates restricted to the decoded `x`.
   */
  predicate CreatedThenUpdated(c: Config, st: Store, log: seq<Statement>, log': seq<Statement>, x: string)
  {
    log < log' && log'[|log|].Insert? && x == st.insertId(log + [log'[|log|]]) &&
    forall k :: |log| < k < |log'| ==> log'[k].Update? && Decode(x, c.idPrefix, c.sep, c.pkey) == Success(log'[k].where)
  }

  /**
   * What a creating run has done: while no key is known nothing is issued;
   * a known key is the one the first insert returned, and every later table
   * is updated at it; a failure is that key failing to decode, thrown at the
   * table right after the insert.
   */
  predicate Creating(c: Config, st: Store, log: seq<Statement>, r: Run<Option<string>>)
  {
    (r.result == Success(None) ==> r.log == log) &&
    (r.result.Success? && r.result.value.Some? ==> CreatedThenUpdated(c, st, log, r.log, r.result.value.value)) &&
    (r.result.Failure? ==>
      r.result.error == KeyArityMismatch && log < r.log && |r.log| == |log| + 1 && r.log[|log|].Insert?)
  }

  /** A key followed by an update decodes. */
  lemma UpdatedKeyDecodes(c: Config, st: Store, log: seq<Statement>, log': seq<Statement>, x: string)
    requires CreatedThenUpdated(c, st, log, log', x)
    ensures |log'| > |log| + 1 ==> Decode(x, c.idPrefix, c.sep, c.pkey).Success?
  {
    if |log'| > |log| + 1 {
      assert log'[|log| + 1].Update?;
    }
  }

  /** A table of a creating run keeps it `Creating`. */
  lemma CreateStep(c: Config, st: Store, log: seq<Statement>, values: Row, prev: Run<Option<string>>, table: string)
    requires Creating(c, st, log, prev)
    ensures Creating(c, st, log, UpsertTable(c, st, values, prev, table))
  {
    if prev.result == Success(None) {
      PlanTableShape(c.fields, table, values, None);
    } else if prev.result.Success? {
      var x := prev.result.value.value;
      var d := Decode(x, c.idPrefix, c.sep, c.pkey);
      if d.Success? {
        PlanTableShape(c.fields, table, values, Some(d.value));
      } else {
        UpdatedKeyDecodes(c, st, log, prev.log, x);
      }
    }
  }

  /** Creating: see `Creating`. */
  lemma UpsertCreating(c: Config, st: Store, log: seq<Statement>, values: Row, n: nat)
    requires n <= |c.tables|
    ensures Creating(c, st, log, Upsert(c, st, log, None, values, n))
  {
    var step := UpsertStepOf(c, st, values);
    var P := (r: Run<Option<string>>) => Creating(c, st, log, r);
    forall r, i | 0 <= i < |c.tables| && P(r) ensures P(step(r, c.tables[i])) {
      CreateStep(c, st, log, values, r, c.tables[i]);
    }
    OverTablesKeeps(step, P, Run(log, Success(None)), c.tables, n);
  }

  /**
   * One update per table, each setting `columns` at `where`, and none at all
   * when `columns` is empty. With no left joins the set an edit carries does
   * not depend on the table, so every table gets the same update.
   */
  function UpdateEach(tables: seq<string>, columns: map<string, Value>, where: map<string, string>): (r: seq<Statement>)
    ensures |columns| == 0 ==> r == []
    ensures |columns| > 0 ==> |r| == |tables| && forall i :: 0 <= i < |tables| ==> r[i] == Update(tables[i], columns, where)
  {
    if |columns| == 0 then [] else seq(|tables|, i requires 0 <= i < |tables| => Update(tables[i], columns, where))
  }

  lemma UpdateEachSnoc(tables: seq<string>, t: string, columns: map<string, Value>, where: map<string, string>)
    ensures UpdateEach(tables + [t], columns, where) == UpdateEach(tables, columns, where) + Emit(if |columns| == 0 then None else Some(Update(t, columns, where)))
  {
  }

  /** A table after the running id became a key `x` that decodes to `d`: the edit set is updated at `d`, and `x` is kept. */
  lemma EditTable(c: Config, st: Store, values: Row, prev: Run<Option<string>>, x: string, d: map<string, string>, table: string)
    requires prev.result == Success(Some(x)) && Decode(x, c.idPrefix, c.sep, c.pkey) == Success(d)
    ensures var columns := SetOf(c.fields, Edit, values);
      UpsertTable(c, st, values, prev, table) ==
        Run(prev.log + Emit(if |columns| == 0 then None else Some(Update(table, columns, d))), Success(Some(x)))
  {
  }

  /** One more table of a run whose id is a key `x` decoding to `d`: one more update of the edit set. */
  lemma UpdateNext(c: Config, st: Store, log: seq<Statement>, id: Option<string>, values: Row,
                   x: string, d: map<string, string>, base: seq<Statement>, done: seq<string>, n: nat)
    requires n < |c.tables| && Decode(x, c.idPrefix, c.sep, c.pkey) == Success(d)
    requires Upsert(c, st, log, id, values, n) == Run(base + UpdateEach(done, SetOf(c.fields, Edit, values), d), Success(Some(x)))
    ensures Upsert(c, st, log, id, values, n + 1) ==
      Run(base + UpdateEach(done + [c.tables[n]], SetOf(c.fields, Edit, values), d), Success(Some(x)))
  {
    var columns := SetOf(c.fields, Edit, values);
    UpsertStep(c, st, log, id, values, n);
    EditTable(c, st, values, Upsert(c, st, log, id, values, n), x, d, c.tables[n]);
    UpdateEachSnoc(done, c.tables[n], columns, d);
  }

  /**
   * Once the running id is a key `x` that decodes to `d`, every further table
   * gets exactly the update of the edit set at `d`, and `x` is kept.
   */
  lemma {:induction false} UpdatesFrom(c: Config, st: Store, log: seq<Statement>, id: Option<string>, values: Row,
                                       x: string, d: map<string, string>, base: seq<Statement>, m: nat, n: nat)
    requires m <= n <= |c.tables|
    requires Upsert(c, st, log, id, values, m) == Run(base, Success(Some(x)))
    requires Decode(x, c.idPrefix, c.sep, c.pkey) == Success(d)
    ensures Upsert(c, st, log, id, values, n) == Run(base + UpdateEach(c.tables[m..n], SetOf(c.fields, Edit, values), d), Success(Some(x)))
    decreases n
  {
    if n == m {
      assert base + UpdateEach(c.tables[m..n], SetOf(c.fields, Edit, values), d) == base;
    } else {
      var done := c.tables[m..n - 1];
      assert c.tables[m..n] == done + [c.tables[n - 1]];
      UpdatesFrom(c, st, log, id, values, x, d, base, m, n - 1);
      UpdateNext(c, st, log, id, values, x, d, base, done, n - 1);
    }
  }

  /**
   * Editing with an id that decodes to `d`: when the edit set is empty
   * nothing is issued, and otherwise every table, in order, gets exactly one
   * update of that set at `d`. The id is returned.
   */
  lemma UpsertEditingExact(c: Config, st: Store, log: seq<Statement>, id: string, values: Row, n: nat)
    requires n <= |c.tables| && Decode(id, c.idPrefix, c.sep, c.pkey).Success?
    ensures Upsert(c, st, log, Some(id), values, n) ==
      Run(log + UpdateEach(c.tables[..n], SetOf(c.fields, Edit, values), Decode(id, c.idPrefix, c.sep, c.pkey).value), Success(Some(id)))
  {
    UpdatesFrom(c, st, log, Some(id), values, id, Decode(id, c.idPrefix, c.sep, c.pkey).value, log, 0, n);
    assert c.tables[0..n] == c.tables[..n];
  }

  /**
   * Creating: when no field applies nothing is issued and no key is learned.
   * Otherwise the first table gets the insert of the create set, which
   * returns the key `x`; if `x` decodes to `d` every later table gets the
   * update of the edit set at `d`, and if it does not the second table
   * throws the arity error.
   */
  lemma UpsertCreatingExact(c: Config, st: Store, log: seq<Statement>, values: Row, n: nat)
    requires n <= |c.tables|
    ensures |SetOf(c.fields, Create, values)| == 0 ==> Upsert(c, st, log, None, values, n) == Run(log, Success(None))
    ensures var columns := SetOf(c.fields, Create, values);
      |columns| > 0 && n > 0 ==>
        var ins := Insert(c.tables[0], columns);
        var x := st.insertId(log + [ins]);
        var d := Decode(x, c.idPrefix, c.sep, c.pkey);
        (d.Failure? ==> Upsert(c, st, log, None, values, n) == Run(log + [ins], if n == 1 then Success(Some(x)) else Failure(KeyArityMismatch))) &&
        (d.Success? ==> Upsert(c, st, log, None, values, n) == Run(log + [ins] + UpdateEach(c.tables[1..n], SetOf(c.fields, Edit, values), d.value), Success(Some(x))))
  {
    var columns := SetOf(c.fields, Create, values);
    if n == 0 {
    } else if |columns| == 0 {
      PlanTableShape(c.fields, c.tables[0], values, None);
      NoInsertWithoutColumns(c, st, log, values, n);
    } else {
      var ins := Insert(c.tables[0], columns);
      var x := st.insertId(log + [ins]);
      UpsertStep(c, st, log, None, values, 0);
      assert Upsert(c, st, log, None, values, 1) == Run(log + [ins], Success(Some(x)));
      if Decode(x, c.idPrefix, c.sep, c.pkey).Success? {
        UpdatesFrom(c, st, log, None, values, x, Decode(x, c.idPrefix, c.sep, c.pkey).value, log + [ins], 1, n);
      } else if n > 1 {
        UpsertStep(c, st, log, None, values, 1);
        UpsertFailureStays(c, st, log, None, values, 2, n);
      }
    }
  }

  /** `_insertOrUpdate(id, values)` over every table. */
  function UpsertAll(c: Config, st: Store, log: seq<Statement>, id: Option<string>, values: Row): (r: Run<Option<string>>)
  {
    Upsert(c, st, log, id, values, |c.tables|)
  }

  /** A key column counts as submitted when the first field on that column applies for creation. */
  predicate KeySubmitted(fields: seq<Field>, column: string, values: Row)
  {
    match FindField(fields, column, ByDbField)
    case None => false
    case Some(i) => fields[i].apply(Create, values)
  }

  /** What `_pkeyValidateInsert` accepts: a single-column key, or every key column submitted. */
  predicate InsertKeyValid(pkey: seq<string>, fields: seq<Field>, values: Row)
  {
    |pkey| == 1 || forall i :: 0 <= i < |pkey| ==> KeySubmitted(fields, pkey[i], values)
  }

  /** `_pkeyValidateInsert(row)`. */
  method PkeyValidateInsert(pkey: seq<string>, fields: seq<Field>, values: Row) returns (r: Result<bool>)
    ensures r.Success? <==> InsertKeyValid(pkey, fields, values)
    ensures r.Success? ==> r.value
    ensures r.Failure? ==> r.error == CompoundKeyNotSubmitted
  {
    if |pkey| == 1 {
      return Success(true);
    }
    var i := 0;
    while i < |pkey|
      invariant 0 <= i <= |pkey|
      invariant forall j :: 0 <= j < i ==> KeySubmitted(fields, pkey[j], values)
    {
      var field := FindField(fields, pkey[i], ByDbField);
      if field.None? || !fields[field.value].apply(Create, values) {
        return Failure(CompoundKeyNotSubmitted);
      }
      i := i + 1;
    }
    r := Success(true);
  }

  /** `row.data.length > 0 ? row.data[0] : null`. */
  function FirstRow(rows: seq<OutRow>): (r: Option<OutRow>)
  {
    if |rows| > 0 then Some(rows[0]) else None
  }

  /** `_insert(values)`: validate the key, insert across the tables, then read back the row at the learned key. */
  function InsertRun(c: Config, st: Store, log: seq<Statement>, values: Row): (r: Run<Option<OutRow>>)
  {
    if !InsertKeyValid(c.pkey, c.fields, values) then Run(log, Failure(CompoundKeyNotSubmitted))
    else
      var up := UpsertAll(c, st, log, None, values);
      match up.result
      case Failure(e) => Run(up.log, Failure(e))
      case Success(id) =>
        var g := GetRun(c, st, up.log, id);
        match g.result
        case Failure(e) => Run(g.log, Failure(e))
        case Success(rows) => Run(g.log, Success(FirstRow(rows)))
  }

  /** `_update(id, values)`: strip the prefix, update across the tables, then read back the row. */
  function UpdateRun(c: Config, st: Store, log: seq<Statement>, wireId: string, values: Row): (r: Run<Option<OutRow>>)
  {
    var id := ReplaceFirst(wireId, c.idPrefix, "");
    var up := UpsertAll(c, st, log, Some(id), values);
    match up.result
    case Failure(e) => Run(up.log, Failure(e))
    case Success(_) =>
      var g := GetRun(c, st, up.log, Some(id));
      match g.result
      case Failure(e) => Run(g.log, Failure(e))
      case Success(rows) => Run(g.log, Success(FirstRow(rows)))
  }

  /** A composite-key insert whose key columns are not all submitted throws before issuing anything. */
  lemma InsertNeedsKeyColumns(c: Config, st: Store, log: seq<Statement>, values: Row)
    requires |c.pkey| != 1
    requires exists i :: 0 <= i < |c.pkey| && !KeySubmitted(c.fields, c.pkey[i], values)
    ensures InsertRun(c, st, log, values) == Run(log, Failure(CompoundKeyNotSubmitted))
  {
  }

  /**
   * An accepted insert for which no field applies issues no insert; `_get`
   * is then called with a null id, so one unrestricted select is issued and
   * the first row of the whole table is returned.
   */
  lemma InsertWithoutColumnsReadsAll(c: Config, st: Store, log: seq<Statement>, values: Row)
    requires InsertKeyValid(c.pkey, c.fields, values)
    requires forall i :: 0 <= i < |c.fields| ==> !c.fields[i].apply(Create, values)
    ensures InsertRun(c, st, log, values).log == log + [Select(c.tables, Projection(c.pkey, c.fields), None)]
  {
    NoInsertWithoutColumns(c, st, log, values, |c.tables|);
  }

  /** When no field applies for creation, a creating run issues nothing and learns no key. */
  lemma NoInsertWithoutColumns(c: Config, st: Store, log: seq<Statement>, values: Row, n: nat)
    requires n <= |c.tables|
    requires forall i :: 0 <= i < |c.fields| ==> !c.fields[i].apply(Create, values)
    ensures Upsert(c, st, log, None, values, n) == Run(log, Success(None))
  {
    var step := UpsertStepOf(c, st, values);
    var P := (r: Run<Option<string>>) => r == Run(log, Success(None));
    forall r, i | 0 <= i < |c.tables| && P(r) ensures P(step(r, c.tables[i])) {
      PlanTableShape(c.fields, c.tables[i], values, None);
    }
    OverTablesKeeps(step, P, Run(log, Success(None)), c.tables, n);
  }

  /**
   * The statements an accepted insert issues: the creating run, then one
   * select of the projection, unrestricted when no key was learned and
   * restricted to the decoded key otherwise. A learned key that does not
   * decode throws instead, right after the one insert.
   */
  lemma InsertReadsBack(c: Config, st: Store, log: seq<Statement>, values: Row)
    requires InsertKeyValid(c.pkey, c.fields, values)
    ensures var up := UpsertAll(c, st, log, None, values);
      var r := InsertRun(c, st, log, values);
      var sel := Select(c.tables, Projection(c.pkey, c.fields), None);
      Creating(c, st, log, up) &&
      (up.result.Failure? ==> r == Run(up.log, Failure(KeyArityMismatch))) &&
      (up.result == Success(None) ==> r.log == log + [sel]) &&
      (up.result.Success? && up.result.value.Some? ==>
        var d := Decode(up.result.value.value, c.idPrefix, c.sep, c.pkey);
        (d.Failure? ==> r == Run(up.log, Failure(KeyArityMismatch)) && |up.log| == |log| + 1) &&
        (d.Success? ==> r.log == up.log + [sel.(filter := Some(d.value))]))
  {
    var up := UpsertAll(c, st, log, None, values);
    UpsertCreating(c, st, log, values, |c.tables|);
    if up.result.Success? && up.result.value.Some? {
      UpdatedKeyDecodes(c, st, log, up.log, up.result.value.value);
    }
  }

  /**
   * What an accepted insert returns: on success its last statement is the
   * read-back select, and the result is null when that select returns no
   * rows and the output row of the first row otherwise; a failure is an
   * undecodable key, a falsy select result or a row missing a key component.
   */
  lemma InsertReturnsFirstRow(c: Config, st: Store, log: seq<Statement>, values: Row)
    requires InsertKeyValid(c.pkey, c.fields, values)
    ensures var r := InsertRun(c, st, log, values);
      r.result.Success? ==>
        |r.log| > |log| && r.log[|r.log| - 1].Select? && st.rows(r.log).Some? &&
        var rows := st.rows(r.log).value;
        (|rows| == 0 ==> r.result.value == None) &&
        (|rows| > 0 ==> OutputRow(c, rows[0]).Success? && r.result.value == Some(OutputRow(c, rows[0]).value))
    ensures var r := InsertRun(c, st, log, values);
      r.result.Failure? ==> r.result.error in {KeyArityMismatch, ExecutionFailure, MissingKeyComponent}
  {
    var up := UpsertAll(c, st, log, None, values);
    UpsertCreating(c, st, log, values, |c.tables|);
    if up.result.Success? {
      var g := GetRun(c, st, up.log, up.result.value);
      if g.result.Success? || (WhereOf(c, up.result.value).Success? && st.rows(g.log).Some?) {
        SynthesizeRowwise(c, st.rows(g.log).value);
      }
    }
  }

  /**
   * An update throws the arity error before issuing anything when its
   * prefix-stripped id does not decode; otherwise it issues only updates
   * restricted to the decoded id and then one select restricted to it.
   */
  lemma UpdateTargetsDecodedId(c: Config, st: Store, log: seq<Statement>, wireId: string, values: Row)
    ensures var d := Decode(ReplaceFirst(wireId, c.idPrefix, ""), c.idPrefix, c.sep, c.pkey);
      var r := UpdateRun(c, st, log, wireId, values);
      (d.Failure? ==> r == Run(log, Failure(KeyArityMismatch))) &&
      (d.Success? ==>
        (|r.log| > |log| && UpdatesAfter(log, r.log[..|r.log| - 1], d.value) &&
         r.log[|r.log| - 1] == Select(c.tables, Projection(c.pkey, c.fields), Some(d.value))))
  {
    var id := ReplaceFirst(wireId, c.idPrefix, "");
    var up := UpsertAll(c, st, log, Some(id), values);
    var d := Decode(id, c.idPrefix, c.sep, c.pkey);
    if d.Failure? {
      UpsertEditingUndecodable(c, st, log, id, values, |c.tables|);
    } else {
      UpsertEditingDecodable(c, st, log, id, values, |c.tables|);
      var r := UpdateRun(c, st, log, wireId, values);
      assert r.log == up.log + [Select(c.tables, Projection(c.pkey, c.fields), Some(d.value))];
      assert r.log[..|r.log| - 1] == up.log;
    }
  }

  /** The number of fields that make `_removeTable` delete from `table`. */
  function OwningCount(fields: seq<Field>, table: string): (r: nat)
    decreases |fields|
  {
    if |fields| == 0 then 0
    else OwningCount(fields[..|fields| - 1], table) + (if Owns(fields[|fields| - 1], table) then 1 else 0)
  }

  /** The count is positive exactly when some field owns the table. */
  lemma {:induction false} OwningCountPositive(fields: seq<Field>, table: string)
    ensures OwningCount(fields, table) > 0 <==> exists i :: 0 <= i < |fields| && Owns(fields[i], table)
  {
    if |fields| > 0 {
      var n := |fields| - 1;
      var pre := fields[..n];
      OwningCountPositive(pre, table);
      assert forall i :: 0 <= i < n ==> pre[i] == fields[i];
      assert fields == pre + [fields[n]];
    }
  }

  /** `_removeTable`'s counting loop. */
  method CountOwning(fields: seq<Field>, table: string) returns (count: nat)
    ensures count == OwningCount(fields, table)
  {
    count := 0;
    var i := 0;
    while i < |fields|
      invariant 0 <= i <= |fields|
      invariant count == OwningCount(fields[..i], table)
    {
      assert fields[..i + 1][..i] == fields[..i];
      var dbField := fields[i].dbField;
      if IndexOf(dbField, ".") == -1 || (Part(dbField, TablePart) == Some(table) && !fields[i].setOption) {
        count := count + 1;
      }
      i := i + 1;
    }
    assert fields[..i] == fields;
  }

  /** The conditions `_removeTable` ORs together: each id decoded, in order; the first failure throws. */
  function DecodeAll(c: Config, ids: seq<string>): (r: Result<seq<map<string, string>>>)
    decreases |ids|
  {
    if |ids| == 0 then Success([])
    else
      match DecodeAll(c, ids[..|ids| - 1])
      case Failure(e) => Failure(e)
      case Success(prior) =>
        match Decode(ids[|ids| - 1], c.idPrefix, c.sep, c.pkey)
        case Failure(e) => Failure(e)
        case Success(cond) => Success(prior + [cond])
  }

  /** Decoding the ids fails, with the arity error, exactly when some id does not decode. */
  lemma {:induction false} DecodeAllFails(c: Config, ids: seq<string>)
    ensures DecodeAll(c, ids).Success? <==> forall i :: 0 <= i < |ids| ==> Decode(ids[i], c.idPrefix, c.sep, c.pkey).Success?
    ensures DecodeAll(c, ids).Failure? ==> DecodeAll(c, ids).error == KeyArityMismatch
  {
    if |ids| > 0 {
      var n := |ids| - 1;
      DecodeAllFails(c, ids[..n]);
      assert forall i :: 0 <= i < n ==> ids[..n][i] == ids[i];
    }
  }

  /** One condition per id, each the id decoded. */
  lemma {:induction false} DecodeAllEach(c: Config, ids: seq<string>)
    requires DecodeAll(c, ids).Success?
    ensures |DecodeAll(c, ids).value| == |ids|
    ensures forall i :: 0 <= i < |ids| ==> Decode(ids[i], c.idPrefix, c.sep, c.pkey) == Success(DecodeAll(c, ids).value[i])
  {
    if |ids| > 0 {
      var n := |ids| - 1;
      DecodeAllEach(c, ids[..n]);
      assert forall i :: 0 <= i < n ==> ids[..n][i] == ids[i];
    }
  }

  /** Once a prefix of the ids fails to decode, so do all the ids. */
  lemma {:induction false} DecodeAllStops(c: Config, ids: seq<string>, m: nat)
    requires m <= |ids| && DecodeAll(c, ids[..m]).Failure?
    ensures DecodeAll(c, ids) == DecodeAll(c, ids[..m])
    decreases |ids| - m
  {
    if m < |ids| {
      assert ids[..m + 1][..m] == ids[..m];
      DecodeAllStops(c, ids, m + 1);
    } else {
      assert ids[..m] == ids;
    }
  }

  /** `_removeTable`'s loop over the ids. */
  method Conditions(c: Config, ids: seq<string>) returns (r: Result<seq<map<string, string>>>)
    ensures r == DecodeAll(c, ids)
  {
    var conds: seq<map<string, string>> := [];
    var i := 0;
    while i < |ids|
      invariant 0 <= i <= |ids|
      invariant DecodeAll(c, ids[..i]) == Success(conds)
    {
      assert ids[..i + 1][..i] == ids[..i];
      var cond := PkeyToArray(ids[i], c.idPrefix, c.sep, c.pkey);
      if cond.Failure? {
        r := Failure(cond.error);
        DecodeAllStops(c, ids, i + 1);
        return;
      }
      conds := conds + [cond.value];
      i := i + 1;
    }
    assert ids[..i] == ids;
    r := Success(conds);
  }

  /** `_removeTable(table, ids)`: one delete matching any of the ids, issued only when some field owns the table. */
  function RemoveTableRun(c: Config, log: seq<Statement>, table: string, ids: seq<string>): (r: Run<()>)
  {
    if OwningCount(c.fields, table) == 0 then Run(log, Success(()))
    else
      match DecodeAll(c, ids)
      case Failure(e) => Run(log, Failure(e))
      case Success(conds) => Run(log + [Delete(table, conds)], Success(()))
  }

  /** A delete from `table` matching exactly the decoded `ids`, one condition per id. */
  predicate DeleteOf(c: Config, s: Statement, ids: seq<string>)
  {
    s.Delete? && |s.conditions| == |ids| &&
    forall i :: 0 <= i < |ids| ==> Decode(ids[i], c.idPrefix, c.sep, c.pkey) == Success(s.conditions[i])
  }

  /**
   * A table no field owns is left alone; otherwise it gets one delete with
   * one condition per id, unless some id does not decode, which throws the
   * arity error with nothing issued.
   */
  lemma RemoveTableEffect(c: Config, log: seq<Statement>, table: string, ids: seq<string>)
    ensures var r := RemoveTableRun(c, log, table, ids);
      ((forall i :: 0 <= i < |c.fields| ==> !Owns(c.fields[i], table)) ==> r == Run(log, Success(()))) &&
      ((exists i :: 0 <= i < |c.fields| && Owns(c.fields[i], table)) ==>
        (r.result.Success? <==> forall i :: 0 <= i < |ids| ==> Decode(ids[i], c.idPrefix, c.sep, c.pkey).Success?) &&
        (r.result.Success? ==>
          (|r.log| == |log| + 1 && log < r.log && r.log[|log|].table == table && DeleteOf(c, r.log[|log|], ids))) &&
        (r.result.Failure? ==> r == Run(log, Failure(KeyArityMismatch))))
  {
    OwningCountPositive(c.fields, table);
    DecodeAllFails(c, ids);
    if DecodeAll(c, ids).Success? {
      DecodeAllEach(c, ids);
    }
  }

  /** One table of `_remove`'s loop: after a failure nothing more is done. */
  function RemoveStepOf(c: Config, ids: seq<string>): (r: TableStep<()>)
  {
    (prev: Run<()>, table: string) => if prev.result.Failure? then prev else RemoveTableRun(c, prev.log, table, ids)
  }

  /** `_remove`'s loop over the tables, after its first `n`. */
  function RemoveTables(c: Config, log: seq<Statement>, ids: seq<string>, n: nat): (r: Run<()>)
    requires n <= |c.tables|
  {
    OverTables(RemoveStepOf(c, ids), Run(log, Success(())), c.tables, n)
  }

  /** One more table after a prefix that threw nothing. */
  lemma RemoveTablesStep(c: Config, log: seq<Statement>, ids: seq<string>, n: nat)
    requires n < |c.tables| && RemoveTables(c, log, ids, n).result.Success?
    ensures RemoveTables(c, log, ids, n + 1) == RemoveTableRun(c, RemoveTables(c, log, ids, n).log, c.tables[n], ids)
  {
  }

  /** A failure stops the loop over the tables. */
  lemma RemoveTablesFailureStays(c: Config, log: seq<Statement>, ids: seq<string>, m: nat, n: nat)
    requires m <= n <= |c.tables| && RemoveTables(c, log, ids, m).result.Failure?
    ensures RemoveTables(c, log, ids, n) == RemoveTables(c, log, ids, m)
  {
    OverTablesStopsAtFailure(RemoveStepOf(c, ids), Run(log, Success(())), c.tables, m, n);
  }

  /**
   * One delete matching `conds` for each table that some field owns, in the
   * order of the tables; tables no field owns get nothing.
   */
  function DeleteEach(fields: seq<Field>, tables: seq<string>, conds: seq<map<string, string>>): (r: seq<Statement>)
    decreases |tables|
  {
    if |tables| == 0 then []
    else
      var t := tables[|tables| - 1];
      DeleteEach(fields, tables[..|tables| - 1], conds) + (if OwningCount(fields, t) > 0 then [Delete(t, conds)] else [])
  }

  /** Every statement `DeleteEach` lists is a delete matching `conds` on one of the tables that some field owns. */
  lemma {:induction false} DeleteEachSound(fields: seq<Field>, tables: seq<string>, conds: seq<map<string, string>>)
    ensures var r := DeleteEach(fields, tables, conds);
      |r| <= |tables| &&
      forall k :: 0 <= k < |r| ==>
        r[k].Delete? && r[k].conditions == conds && r[k].table in tables && OwningCount(fields, r[k].table) > 0
    decreases |tables|
  {
    if |tables| > 0 {
      var n := |tables| - 1;
      DeleteEachSound(fields, tables[..n], conds);
      assert forall t :: t in tables[..n] ==> t in tables;
    }
  }

  /** Every owned table among `tables` gets its delete. */
  lemma {:induction false} DeleteEachComplete(fields: seq<Field>, tables: seq<string>, conds: seq<map<string, string>>)
    ensures forall i :: 0 <= i < |tables| && OwningCount(fields, tables[i]) > 0 ==> Delete(tables[i], conds) in DeleteEach(fields, tables, conds)
    decreases |tables|
  {
    if |tables| > 0 {
      var n := |tables| - 1;
      DeleteEachComplete(fields, tables[..n], conds);
      assert forall i :: 0 <= i < n ==> tables[..n][i] == tables[i];
    }
  }

  /** One more table of a loop that has thrown nothing: one more delete when the table is owned. */
  lemma RemoveNext(c: Config, log: seq<Statement>, ids: seq<string>, conds: seq<map<string, string>>, done: seq<string>, n: nat)
    requires n < |c.tables| && DecodeAll(c, ids) == Success(conds)
    requires RemoveTables(c, log, ids, n) == Run(log + DeleteEach(c.fields, done, conds), Success(()))
    ensures RemoveTables(c, log, ids, n + 1) == Run(log + DeleteEach(c.fields, done + [c.tables[n]], conds), Success(()))
  {
    RemoveTablesStep(c, log, ids, n);
    assert (done + [c.tables[n]])[..|done|] == done;
  }

  /**
   * When every id decodes, the loop over the first `n` tables issues exactly
   * one delete of the decoded ids per owned table, and throws nothing.
   */
  lemma {:induction false} RemoveTablesExact(c: Config, log: seq<Statement>, ids: seq<string>, n: nat)
    requires n <= |c.tables| && DecodeAll(c, ids).Success?
    ensures RemoveTables(c, log, ids, n) == Run(log + DeleteEach(c.fields, c.tables[..n], DecodeAll(c, ids).value), Success(()))
    decreases n
  {
    var conds := DecodeAll(c, ids).value;
    if n == 0 {
      assert log + DeleteEach(c.fields, c.tables[..0], conds) == log;
    } else {
      var done := c.tables[..n - 1];
      assert c.tables[..n] == done + [c.tables[n - 1]];
      RemoveTablesExact(c, log, ids, n - 1);
      RemoveNext(c, log, ids, conds, done, n - 1);
    }
  }

  /** Some field owns one of the first `n` tables. */
  predicate SomeOwned(c: Config, n: nat)
    requires n <= |c.tables|
  {
    exists i :: 0 <= i < n && OwningCount(c.fields, c.tables[i]) > 0
  }

  /** The first `n + 1` tables hold an owned one exactly when the first `n` do or table `n` is owned. */
  lemma SomeOwnedNext(c: Config, n: nat)
    requires n < |c.tables|
    ensures SomeOwned(c, n + 1) <==> SomeOwned(c, n) || OwningCount(c.fields, c.tables[n]) > 0
  {
  }

  /**
   * When some id does not decode, the loop issues nothing, and it throws the
   * arity error exactly when one of the first `n` tables is owned.
   */
  lemma {:induction false} RemoveTablesUndecodable(c: Config, log: seq<Statement>, ids: seq<string>, n: nat)
    requires n <= |c.tables| && DecodeAll(c, ids).Failure?
    ensures RemoveTables(c, log, ids, n) == Run(log, if SomeOwned(c, n) then Failure(KeyArityMismatch) else Success(()))
    decreases n
  {
    DecodeAllFails(c, ids);
    if n > 0 {
      RemoveTablesUndecodable(c, log, ids, n - 1);
      SomeOwnedNext(c, n - 1);
      if SomeOwned(c, n - 1) {
        RemoveTablesFailureStays(c, log, ids, n - 1, n);
      } else {
        RemoveTablesStep(c, log, ids, n - 1);
      }
    }
  }

  /** The ids `_remove` deletes: each submitted key with the id prefix stripped. */
  function StripAll(c: Config, keys: seq<string>): (ids: seq<string>)
    ensures |ids| == |keys|
  {
    seq(|keys|, i requires 0 <= i < |keys| => ReplaceFirst(keys[i], c.idPrefix, ""))
  }

  /** `_remove(http)` for the submitted keys. */
  function RemoveRun(c: Config, log: seq<Statement>, keys: seq<string>): (r: Run<()>)
  {
    var ids := StripAll(c, keys);
    if |ids| == 0 then Run(log, Success(())) else RemoveTables(c, log, ids, |c.tables|)
  }

  /**
   * `_remove` exactly: no submitted keys issue nothing; when every stripped
   * key decodes, each owned table gets one delete of them, in table order;
   * otherwise nothing is issued and the arity error is thrown when some
   * table is owned.
   */
  lemma RemoveRunExact(c: Config, log: seq<Statement>, keys: seq<string>)
    ensures |keys| == 0 ==> RemoveRun(c, log, keys) == Run(log, Success(()))
    ensures var conds := DecodeAll(c, StripAll(c, keys));
      |keys| > 0 && conds.Success? ==> RemoveRun(c, log, keys) == Run(log + DeleteEach(c.fields, c.tables, conds.value), Success(()))
    ensures var conds := DecodeAll(c, StripAll(c, keys));
      |keys| > 0 && conds.Failure? ==>
        RemoveRun(c, log, keys) == Run(log, if SomeOwned(c, |c.tables|) then Failure(KeyArityMismatch) else Success(()))
  {
    var ids := StripAll(c, keys);
    if |keys| > 0 {
      assert c.tables[..|c.tables|] == c.tables;
      if DecodeAll(c, ids).Success? {
        RemoveTablesExact(c, log, ids, |c.tables|);
      } else {
        RemoveTablesUndecodable(c, log, ids, |c.tables|);
      }
    }
  }

  /** `log'` is `log` followed only by deletes, each from one of the tables, of exactly the rows at `ids`. */
  predicate DeletesAfter(c: Config, log: seq<Statement>, log': seq<Statement>, ids: seq<string>)
  {
    log <= log' && forall k :: |log| <= k < |log'| ==> DeleteOf(c, log'[k], ids) && log'[k].table in c.tables
  }

  /** The loop over the tables issues nothing but deletes of the ids, at most one per table. */
  lemma RemoveTablesDeletes(c: Config, log: seq<Statement>, ids: seq<string>, n: nat)
    requires n <= |c.tables|
    ensures DeletesAfter(c, log, RemoveTables(c, log, ids, n).log, ids)
    ensures |RemoveTables(c, log, ids, n).log| <= |log| + n
  {
    var step := RemoveStepOf(c, ids);
    var P := (r: Run<()>) => DeletesAfter(c, log, r.log, ids);
    forall r, i | 0 <= i < |c.tables| && P(r) ensures P(step(r, c.tables[i])) {
      RemoveTableEffect(c, r.log, c.tables[i], ids);
    }
    OverTablesKeeps(step, P, Run(log, Success(())), c.tables, n);
    forall r, t ensures |step(r, t).log| <= |r.log| + 1 {
      RemoveTableEffect(c, r.log, t, ids);
    }
    OverTablesGrowth(step, Run(log, Success(())), c.tables, n);
  }

  /**
   * Removing issues nothing when no keys are submitted, and otherwise at
   * most one delete per table, each matching exactly the prefix-stripped
   * keys.
   */
  lemma RemoveDeletesSubmitted(c: Config, log: seq<Statement>, keys: seq<string>)
    ensures |keys| == 0 ==> RemoveRun(c, log, keys) == Run(log, Success(()))
    ensures DeletesAfter(c, log, RemoveRun(c, log, keys).log, StripAll(c, keys))
    ensures |RemoveRun(c, log, keys).log| <= |log| + |c.tables|
  {
    if |keys| > 0 {
      RemoveTablesDeletes(c, log, StripAll(c, keys), |c.tables|);
    }
  }
}

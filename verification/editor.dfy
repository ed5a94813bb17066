/**
 * The `Editor` class: its configuration, set through chainable setters
 * that append, and the operations that issue statements and fill the
 * response. Each operation is proved to do what the corresponding function
 * of `Reader`, `Mutation` or `Processor` specifies.
 */
module EditorClass {
  import opened Text
  import opened Values
  import opened Actions
  import opened Fields
  import opened PrimaryKey
  import opened Statements
  import opened Reader
  import opened Mutation
  import opened Processor

  /** A `string|string[]` argument. */
  datatype Names = One(name: string) | Many(names: seq<string>)

  /** What `table(arg)` appends: a string is pushed, an array is spread; an empty string or array only reads. */
  function TablesAdded(arg: Names): (r: seq<string>)
  {
    match arg
    case One(t) => if t == "" then [] else [t]
    case Many(ts) => ts
  }

  /** What `pkey(arg)` appends: a string is pushed (even an empty one), an array is spread. */
  function KeysAdded(arg: Names): (r: seq<string>)
  {
    match arg
    case One(k) => [k]
    case Many(ks) => ks
  }

  /** `_out`: the response data and the message of a caught error. */
  datatype Response = Response(data: seq<OutRow>, error: Option<string>)

  class Editor {
    var tables: seq<string>
    var pkey: seq<string>
    var fields: seq<Field>
    var idPrefix: string
    var tryCatch: bool
    /** The statements issued to the database so far. */
    var log: seq<Statement>
    var out: Response
    /** The checksum the key separator is computed with (crc32). */
    const checksum: string -> NonEmpty
    /** The database's answers. */
    const store: Store

    /** The key always starts with the default column "id": `pkey` only ever appends to it. */
    ghost predicate Valid()
      reads this`pkey
    {
      |pkey| >= 1 && pkey[0] == "id"
    }

    /** `_pkeySeparator()`. */
    function Separator(): (r: NonEmpty)
      reads this`pkey
    {
      PrimaryKey.Separator(checksum, pkey)
    }

    /** The configuration the operations read. */
    function Cfg(): (r: Config)
      reads this`tables, this`pkey, this`fields, this`idPrefix
    {
      Config(tables, pkey, fields, idPrefix, Separator())
    }

    /** `new Editor(db, table, pkey)`; the database is `store`. */
    constructor (table: Names, key: Names, checksum: string -> NonEmpty, store: Store)
      ensures Valid()
      ensures tables == TablesAdded(table) && pkey == ["id"] + KeysAdded(key)
      ensures fields == [] && idPrefix == "row_" && !tryCatch
      ensures log == [] && out == Response([], None)
      ensures this.checksum == checksum && this.store == store
    {
      this.checksum := checksum;
      this.store := store;
      tables := TablesAdded(table);
      pkey := ["id"] + KeysAdded(key);
      fields := [];
      idPrefix := "row_";
      tryCatch := false;
      log := [];
      out := Response([], None);
    }

    /** `table(arg)`. */
    method SetTable(arg: Names)
      modifies this`tables
      ensures tables == old(tables) + TablesAdded(arg)
    {
      tables := tables + TablesAdded(arg);
    }

    /** `pkey(arg)`: appends, so the default column stays first. */
    method SetPkey(arg: Names)
      modifies this`pkey
      ensures pkey == old(pkey) + KeysAdded(arg)
      ensures old(Valid()) ==> Valid()
    {
      pkey := pkey + KeysAdded(arg);
    }

    /** `fields(...fs)`. */
    method AddFields(fs: seq<Field>)
      modifies this`fields
      ensures fields == old(fields) + fs
    {
      fields := fields + fs;
    }

    /** `field(f)` with a field descriptor. */
    method AddField(f: Field)
      modifies this`fields
      ensures fields == old(fields) + [f]
    {
      fields := fields + [f];
    }

    /** `idPrefix(p)`: replaces the prefix. */
    method SetIdPrefix(p: string)
      modifies this`idPrefix
      ensures idPrefix == p
    {
      idPrefix := p;
    }

    /** `tryCatch(b)`. */
    method SetTryCatch(b: bool)
      modifies this`tryCatch
      ensures tryCatch == b
    {
      tryCatch := b;
    }

    /** `field(name)` with a name: the first field so called, or the "Unknown field" error. */
    method FieldByName(name: string) returns (r: Result<Field>)
      ensures r.Success? <==> exists j :: 0 <= j < |fields| && fields[j].name == name
      ensures r.Success? ==> FieldNamed(fields, name).Success? && r.value == fields[FieldNamed(fields, name).value]
      ensures r.Failure? ==> r.error == UnknownField(name)
    {
      var i := 0;
      while i < |fields|
        invariant 0 <= i <= |fields|
        invariant forall j :: 0 <= j < i ==> fields[j].name != name
      {
        if fields[i].name == name {
          return Success(fields[i]);
        }
        i := i + 1;
      }
      r := Failure(UnknownField(name));
    }

    /** `_insertOrUpdateTable(table, values, where)`: issues the planned statement; an insert returns the new key. */
    method InsertOrUpdateTable(table: string, values: Row, where: Option<map<string, string>>) returns (res: Option<string>)
      modifies this`log
      ensures log == old(log) + Emit(PlanTable(fields, table, values, where))
      ensures var plan := PlanTable(fields, table, values, where);
        res == (if plan.Some? && plan.value.Insert? then Some(store.insertId(log)) else None)
    {
      var columns := BuildSet(fields, StageOf(where), values);
      if |columns| == 0 {
        return None;
      }
      if where.None? {
        log := log + [Statement.Insert(table, columns)];
        res := Some(store.insertId(log));
      } else {
        log := log + [Statement.Update(table, columns, where.value)];
        res := None;
      }
    }

    /** `_insertOrUpdate(id, values)`. */
    method InsertOrUpdate(id: Option<string>, values: Row) returns (r: Result<Option<string>>)
      modifies this`log
      ensures Run(log, r) == UpsertAll(Cfg(), store, old(log), id, values)
    {
      ghost var log0 := log;
      var cur := id;
      var i := 0;
      while i < |tables|
        invariant 0 <= i <= |tables|
        invariant Upsert(Cfg(), store, log0, id, values, i) == Run(log, Success(cur))
      {
        UpsertStep(Cfg(), store, log0, id, values, i);
        var where := WhereFor(Cfg(), cur);
        if where.Failure? {
          UpsertThrows(Cfg(), store, log0, id, values, i);
          return Failure(where.error);
        }
        var res := InsertOrUpdateTable(tables[i], values, where.value);
        if cur.None? {
          cur := res;
        }
        i := i + 1;
      }
      r := Success(cur);
    }

    /** `_get(id)`. */
    method Get(id: Option<string>) returns (r: Result<seq<OutRow>>)
      modifies this`log
      ensures Run(log, r) == GetRun(Cfg(), store, old(log), id)
    {
      var columns := SelectColumns(pkey, fields);
      var where: Option<map<string, string>> := None;
      if id.Some? {
        var d := PkeyToArray(id.value, idPrefix, Separator(), pkey);
        if d.Failure? {
          return Failure(d.error);
        }
        where := Some(d.value);
      }
      log := log + [Select(tables, columns, where)];
      var result := store.rows(log);
      if result.None? {
        return Failure(ExecutionFailure);
      }
      r := SynthesizeRows(Cfg(), result.value);
    }

    /**
     * What the class invariant buys `_get`: with the key never empty, the
     * `DT_RowId` of the output row built from a result row decodes back to
     * that row's key components, when the components are joinable with the
     * separator and no readable field is itself called `DT_RowId`.
     */
    lemma RowIdDecodes(row: Row)
      requires Valid() && AllPresent(row, pkey)
      requires Joinable(Components(row, pkey), Separator())
      requires forall i :: 0 <= i < |fields| && Readable(fields[i]) ==> fields[i].name != "DT_RowId"
      ensures OutputRow(Cfg(), row).Success?
      ensures var o := OutputRow(Cfg(), row).value;
        "DT_RowId" in o && o["DT_RowId"].Str? &&
        var d := Decode(o["DT_RowId"].s, idPrefix, Separator(), pkey);
        d.Success? && forall i :: 0 <= i < |pkey| ==> pkey[i] in d.value && d.value[pkey[i]] == ToText(row[pkey[i]])
    {
      RowIdRoundTrip(Cfg(), row);
    }

    /** `_insert(values)`. */
    method Insert(values: Row) returns (r: Result<Option<OutRow>>)
      modifies this`log
      ensures Run(log, r) == InsertRun(Cfg(), store, old(log), values)
    {
      var valid := PkeyValidateInsert(pkey, fields, values);
      if valid.Failure? {
        return Failure(valid.error);
      }
      var id := InsertOrUpdate(None, values);
      if id.Failure? {
        return Failure(id.error);
      }
      var rows := Get(id.value);
      if rows.Failure? {
        return Failure(rows.error);
      }
      r := Success(FirstRow(rows.value));
    }

    /** `_update(wireId, values)`. */
    method Update(wireId: string, values: Row) returns (r: Result<Option<OutRow>>)
      modifies this`log
      ensures Run(log, r) == UpdateRun(Cfg(), store, old(log), wireId, values)
    {
      var id := ReplaceFirst(wireId, idPrefix, "");
      var done := InsertOrUpdate(Some(id), values);
      if done.Failure? {
        return Failure(done.error);
      }
      var rows := Get(Some(id));
      if rows.Failure? {
        return Failure(rows.error);
      }
      r := Success(FirstRow(rows.value));
    }

    /** `_removeTable(table, ids)`. */
    method RemoveTable(table: string, ids: seq<string>) returns (r: Result<()>)
      modifies this`log
      ensures Run(log, r) == RemoveTableRun(Cfg(), old(log), table, ids)
    {
      var count := CountOwning(fields, table);
      if count > 0 {
        var conds := Conditions(Cfg(), ids);
        if conds.Failure? {
          return Failure(conds.error);
        }
        log := log + [Statement.Delete(table, conds.value)];
      }
      r := Success(());
    }

    /** `_remove(http)` for the submitted keys. */
    method Remove(keys: seq<string>) returns (r: Result<()>)
      modifies this`log
      ensures Run(log, r) == RemoveRun(Cfg(), old(log), keys)
    {
      var ids: seq<string> := [];
      var k := 0;
      while k < |keys|
        invariant 0 <= k <= |keys|
        invariant ids == StripAll(Cfg(), keys[..k])
      {
        ids := ids + [ReplaceFirst(keys[k], idPrefix, "")];
        k := k + 1;
      }
      assert keys[..k] == keys;
      if |ids| == 0 {
        return Success(());
      }
      ghost var log0 := log;
      var i := 0;
      while i < |tables|
        invariant 0 <= i <= |tables|
        invariant RemoveTables(Cfg(), log0, ids, i) == Run(log, Success(()))
      {
        RemoveTablesStep(Cfg(), log0, ids, i);
        var res := RemoveTable(tables[i], ids);
        if res.Failure? {
          RemoveTablesFailureStays(Cfg(), log0, ids, i + 1, |tables|);
          return res;
        }
        i := i + 1;
      }
      r := Success(());
    }

    /** `w` writes a submitted row as `_insert` (when creating) or `_update` (when editing) would. */
    ghost predicate Fits(w: Writer, create: bool)
      reads this`tables, this`pkey, this`fields, this`idPrefix
    {
      forall log', row {:trigger WriteOne(Cfg(), store, log', row, create)} ::
        w(log', row) == WriteOne(Cfg(), store, log', row, create)
    }

    /** `_process`'s create/edit loop body for row `i`: writes it and pushes the row it returns. */
    method WriteRow(ghost w: Writer, ghost log0: seq<Statement>, rows: seq<(string, Row)>, create: bool, i: nat) returns (e: Option<Error>)
      requires Fits(w, create)
      requires i < |rows| && out.error == None
      requires WriteLoop(w, log0, rows, i) == Outcome(log, out.data, None)
      modifies this`log, this`out
      ensures out.error == None
      ensures WriteLoop(w, log0, rows, i + 1) == Outcome(log, out.data, e)
    {
      WriteLoopStep(w, log0, rows, i);
      assert w(log, rows[i]) == WriteOne(Cfg(), store, log, rows[i], create);
      var d;
      if create {
        d := Insert(rows[i].1);
      } else {
        d := Update(rows[i].0, rows[i].1);
      }
      e := None;
      if d.Failure? {
        e := Some(d.error);
      } else if d.value.Some? {
        out := Response(out.data + [d.value.value], None);
      }
    }

    /** `_process`'s create/edit loop over the submitted rows, starting from an empty response. */
    method WriteAll(ghost w: Writer, rows: seq<(string, Row)>, create: bool) returns (e: Option<Error>)
      requires Fits(w, create) && out == Response([], None)
      modifies this`log, this`out
      ensures var o := WriteLoop(w, old(log), rows, |rows|);
        log == o.log && out == Response(o.data, None) && e == o.error
    {
      ghost var log0 := log;
      e := None;
      var i := 0;
      while i < |rows| && e.None?
        invariant 0 <= i <= |rows| && Fits(w, create)
        invariant WriteLoop(w, log0, rows, i) == Outcome(log, out.data, e)
        invariant out.error == None
      {
        e := WriteRow(w, log0, rows, create, i);
        i := i + 1;
      }
      if e.Some? {
        WriteLoopStopsAtFailure(w, log0, rows, i, |rows|);
      }
    }

    /** `_process(data)`: resets the response, dispatches, and returns the error it threw, if any. */
    method ProcessRequest(req: Request) returns (e: Option<Error>)
      modifies this`log, this`out
      ensures var o := ProcessOutcome(Cfg(), store, old(log), req);
        log == o.log && out == Response(o.data, None) && e == o.error
    {
      out := Response([], None);
      e := None;
      match Dispatch(req.action)
      case ReadRows =>
        var g := Get(None);
        if g.Success? {
          out := Response(g.value, None);
        } else {
          e := Some(g.error);
        }
      case SkipUpload =>
      case RemoveRows =>
        if req.data.None? {
          e := Some(NoSubmittedData);
        } else {
          var r := Remove(Keys(req.data.value));
          if r.Failure? {
            e := Some(r.error);
          }
        }
      case CreateRows =>
        if req.data.None? {
          e := Some(NoSubmittedData);
        } else {
          e := WriteAll(WriterOf(Cfg(), store, true), req.data.value, true);
        }
      case EditRows =>
        if req.data.None? {
          e := Some(NoSubmittedData);
        } else {
          e := WriteAll(WriterOf(Cfg(), store, false), req.data.value, false);
        }
    }

    /**
     * `process(data)` without a transaction: with `tryCatch` on, a thrown
     * error is caught and its message stored in the response; otherwise it
     * propagates.
     */
    method Process(req: Request) returns (e: Option<Error>)
      modifies this`log, this`out
      ensures var o := ProcessOutcome(Cfg(), store, old(log), req);
        log == o.log &&
        (tryCatch && o.error.Some? ==> out == Response(o.data, Some(Message(o.error.value))) && e == None) &&
        (!tryCatch || o.error.None? ==> out == Response(o.data, None) && e == o.error)
    {
      e := ProcessRequest(req);
      if tryCatch && e.Some? {
        out := Response(out.data, Some(Message(e.value)));
        e := None;
      }
    }
  }
}

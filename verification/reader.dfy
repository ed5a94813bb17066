/**
 * The row reader `_get`: the columns it selects, the condition a known id
 * adds, and the output rows it builds from the rows the database returns.
 */
module Reader {
  import opened Text
  import opened Values
  import opened Fields
  import opened PrimaryKey
  import opened Statements

  /** A field `_get` adds to the select list: not a key column, readable, and with no cached value. */
  predicate Selected(pkey: seq<string>, f: Field)
  {
    f.dbField !in pkey && Readable(f) && !f.cached
  }

  /** The select list `_get` builds: the key columns, then the db column of every selected field, in field order. */
  function Projection(pkey: seq<string>, fields: seq<Field>): (r: seq<string>)
    decreases |fields|
  {
    if |fields| == 0 then pkey
    else
      var f := fields[|fields| - 1];
      Projection(pkey, fields[..|fields| - 1]) + (if Selected(pkey, f) then [f.dbField] else [])
  }

  /** The key columns come first; after them stand exactly the db columns of the selected fields. */
  lemma {:induction false} ProjectionColumns(pkey: seq<string>, fields: seq<Field>)
    ensures |Projection(pkey, fields)| >= |pkey| && Projection(pkey, fields)[..|pkey|] == pkey
    ensures forall x :: x in Projection(pkey, fields)[|pkey|..] <==>
      exists i :: 0 <= i < |fields| && Selected(pkey, fields[i]) && fields[i].dbField == x
  {
    if |fields| > 0 {
      var n := |fields| - 1;
      ProjectionColumns(pkey, fields[..n]);
      var p := Projection(pkey, fields[..n]);
      var extra := if Selected(pkey, fields[n]) then [fields[n].dbField] else [];
      assert Projection(pkey, fields) == p + extra;
      assert Projection(pkey, fields)[|pkey|..] == p[|pkey|..] + extra;
      forall x | x in Projection(pkey, fields)[|pkey|..]
        ensures exists i :: 0 <= i < |fields| && Selected(pkey, fields[i]) && fields[i].dbField == x
      {
        if x in p[|pkey|..] {
          var i :| 0 <= i < n && Selected(pkey, fields[..n][i]) && fields[..n][i].dbField == x;
          assert fields[i] == fields[..n][i];
        }
      }
      forall i | 0 <= i < |fields| && Selected(pkey, fields[i])
        ensures fields[i].dbField in Projection(pkey, fields)[|pkey|..]
      {
        if i < n {
          assert fields[..n][i] == fields[i];
        }
      }
    }
  }

  /** `_get`'s select-list loop. */
  method SelectColumns(pkey: seq<string>, fields: seq<Field>) returns (columns: seq<string>)
    ensures columns == Projection(pkey, fields)
  {
    columns := pkey;
    var i := 0;
    while i < |fields|
      invariant 0 <= i <= |fields|
      invariant columns == Projection(pkey, fields[..i])
    {
      assert fields[..i + 1][..i] == fields[..i];
      if fields[i].dbField !in pkey && Readable(fields[i]) && !fields[i].cached {
        columns := columns + [fields[i].dbField];
      }
      i := i + 1;
    }
    assert fields[..i] == fields;
  }

  /** `fields[j].write(inner, row)` for each readable field in order: its name is set to its value. */
  function WriteFields(fields: seq<Field>, row: Row, inner: OutRow): (r: OutRow)
    decreases |fields|
  {
    if |fields| == 0 then inner
    else
      var f := fields[|fields| - 1];
      var prior := WriteFields(fields[..|fields| - 1], row, inner);
      if Readable(f) then prior[f.name := f.writeValue(row)] else prior
  }

  /** Field `f` is readable and called `k`. */
  predicate WritesName(f: Field, k: string)
  {
    Readable(f) && f.name == k
  }

  /** The output row holds what was there and one entry per readable field's name. */
  lemma {:induction false} WriteFieldsKeys(fields: seq<Field>, row: Row, inner: OutRow)
    ensures forall k :: k in WriteFields(fields, row, inner) <==>
      k in inner || exists i :: 0 <= i < |fields| && WritesName(fields[i], k)
  {
    if |fields| > 0 {
      var n := |fields| - 1;
      WriteFieldsKeys(fields[..n], row, inner);
      forall k | k in WriteFields(fields, row, inner) && k !in inner
        ensures exists i :: 0 <= i < |fields| && WritesName(fields[i], k)
      {
        if !WritesName(fields[n], k) {
          assert k in WriteFields(fields[..n], row, inner);
          var i :| 0 <= i < n && WritesName(fields[..n][i], k);
          assert fields[i] == fields[..n][i];
        }
      }
      forall k, i | 0 <= i < |fields| && WritesName(fields[i], k)
        ensures k in WriteFields(fields, row, inner)
      {
        if i < n {
          assert WritesName(fields[..n][i], k);
        }
      }
    }
  }

  /** An entry no readable field names keeps its value. */
  lemma {:induction false} WriteFieldsKeeps(fields: seq<Field>, row: Row, inner: OutRow, k: string)
    requires k in inner
    requires forall i :: 0 <= i < |fields| ==> !WritesName(fields[i], k)
    ensures k in WriteFields(fields, row, inner) && WriteFields(fields, row, inner)[k] == inner[k]
  {
    if |fields| > 0 {
      var n := |fields| - 1;
      assert forall i :: 0 <= i < n ==> fields[..n][i] == fields[i];
      WriteFieldsKeeps(fields[..n], row, inner, k);
    }
  }

  /** Field `i` is readable and no later readable field has its name. */
  predicate LastReadable(fields: seq<Field>, i: nat)
    requires i < |fields|
  {
    Readable(fields[i]) && forall j :: i < j < |fields| ==> !WritesName(fields[j], fields[i].name)
  }

  /** A name is given the value of the last readable field with that name. */
  lemma {:induction false} WriteFieldsLastWins(fields: seq<Field>, row: Row, inner: OutRow, i: nat)
    requires i < |fields| && LastReadable(fields, i)
    ensures fields[i].name in WriteFields(fields, row, inner)
    ensures WriteFields(fields, row, inner)[fields[i].name] == fields[i].writeValue(row)
  {
    var n := |fields| - 1;
    if i < n {
      assert fields[..n][i] == fields[i];
      assert LastReadable(fields[..n], i) by {
        forall j | i < j < n ensures !WritesName(fields[..n][j], fields[i].name) {
          assert fields[..n][j] == fields[j];
        }
      }
      WriteFieldsLastWins(fields[..n], row, inner, i);
    }
  }

  /** The output row for one result row: `DT_RowId` is the prefixed wire id, then the readable fields write. */
  function OutputRow(c: Config, row: Row): (r: Result<OutRow>)
  {
    match Encode(row, c.pkey, c.sep)
    case Failure(e) => Failure(e)
    case Success(key) => Success(WriteFields(c.fields, row, map["DT_RowId" := Str(c.idPrefix + key)]))
  }

  /** The output rows for the result rows, or the first failure to encode a key. */
  function Synthesize(c: Config, rows: seq<Row>): (r: Result<seq<OutRow>>)
    decreases |rows|
  {
    if |rows| == 0 then Success([])
    else
      match Synthesize(c, rows[..|rows| - 1])
      case Failure(e) => Failure(e)
      case Success(prior) =>
        match OutputRow(c, rows[|rows| - 1])
        case Failure(e) => Failure(e)
        case Success(o) => Success(prior + [o])
  }

  /**
   * One output row per result row, in order; building fails, with the
   * missing-component error, exactly when some result row lacks a key
   * component.
   */
  lemma {:induction false} SynthesizeRowwise(c: Config, rows: seq<Row>)
    ensures Synthesize(c, rows).Success? <==> forall i :: 0 <= i < |rows| ==> AllPresent(rows[i], c.pkey)
    ensures Synthesize(c, rows).Failure? ==> Synthesize(c, rows).error == MissingKeyComponent
    ensures Synthesize(c, rows).Success? ==>
      |Synthesize(c, rows).value| == |rows| &&
      forall i :: 0 <= i < |rows| ==> Success(Synthesize(c, rows).value[i]) == OutputRow(c, rows[i])
  {
    if |rows| > 0 {
      var n := |rows| - 1;
      SynthesizeRowwise(c, rows[..n]);
      assert forall i :: 0 <= i < n ==> rows[..n][i] == rows[i];
    }
  }

  /** `_get`'s loop over the result rows. */
  method SynthesizeRows(c: Config, rows: seq<Row>) returns (r: Result<seq<OutRow>>)
    ensures r == Synthesize(c, rows)
  {
    var out: seq<OutRow> := [];
    var i := 0;
    while i < |rows|
      invariant 0 <= i <= |rows|
      invariant Synthesize(c, rows[..i]) == Success(out)
    {
      assert rows[..i + 1][..i] == rows[..i];
      var key := PkeyToValue(rows[i], c.pkey, c.sep);
      if key.Failure? {
        r := Failure(key.error);
        SynthesizeStops(c, rows, i + 1);
        return;
      }
      var inner: OutRow := map["DT_RowId" := Str(c.idPrefix + key.value)];
      var j := 0;
      while j < |c.fields|
        invariant 0 <= j <= |c.fields|
        invariant inner == WriteFields(c.fields[..j], rows[i], map["DT_RowId" := Str(c.idPrefix + key.value)])
      {
        assert c.fields[..j + 1][..j] == c.fields[..j];
        if Readable(c.fields[j]) {
          inner := inner[c.fields[j].name := c.fields[j].writeValue(rows[i])];
        }
        j := j + 1;
      }
      assert c.fields[..j] == c.fields;
      out := out + [inner];
      i := i + 1;
    }
    assert rows[..i] == rows;
    r := Success(out);
  }

  /** Once a prefix of the rows fails, so do all the rows. */
  lemma {:induction false} SynthesizeStops(c: Config, rows: seq<Row>, m: nat)
    requires m <= |rows| && Synthesize(c, rows[..m]).Failure?
    ensures Synthesize(c, rows) == Synthesize(c, rows[..m])
    decreases |rows| - m
  {
    if m < |rows| {
      assert rows[..m + 1][..m] == rows[..m];
      SynthesizeStops(c, rows, m + 1);
    } else {
      assert rows[..m] == rows;
    }
  }

  /**
   * `_get(id)`: a failing id decode throws before any statement is issued;
   * otherwise one select is issued, a falsy result throws, and the output
   * rows are built.
   */
  function GetRun(c: Config, st: Store, log: seq<Statement>, id: Option<string>): (r: Run<seq<OutRow>>)
  {
    match WhereOf(c, id)
    case Failure(e) => Run(log, Failure(e))
    case Success(where) =>
      var log' := log + [Select(c.tables, Projection(c.pkey, c.fields), where)];
      match st.rows(log')
      case None => Run(log', Failure(ExecutionFailure))
      case Some(rows) => Run(log', Synthesize(c, rows))
  }

  /**
   * What `_get` promises the client: every output row's `DT_RowId` decodes
   * back to the key components of the result row it came from, provided no
   * readable field is itself called `DT_RowId` and the components are
   * joinable.
   */
  lemma RowIdRoundTrip(c: Config, row: Row)
    requires |c.pkey| >= 1 && AllPresent(row, c.pkey)
    requires Joinable(Components(row, c.pkey), c.sep)
    requires forall i :: 0 <= i < |c.fields| && Readable(c.fields[i]) ==> c.fields[i].name != "DT_RowId"
    ensures OutputRow(c, row).Success?
    ensures var o := OutputRow(c, row).value;
      "DT_RowId" in o && o["DT_RowId"].Str? &&
      var d := Decode(o["DT_RowId"].s, c.idPrefix, c.sep, c.pkey);
      d.Success? && forall i :: 0 <= i < |c.pkey| ==> c.pkey[i] in d.value && d.value[c.pkey[i]] == ToText(row[c.pkey[i]])
  {
    RoundTrip(row, c.pkey, c.idPrefix, c.sep);
    var key := Encode(row, c.pkey, c.sep).value;
    WriteFieldsKeeps(c.fields, row, map["DT_RowId" := Str(c.idPrefix + key)], "DT_RowId");
  }
}

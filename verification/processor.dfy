/**
 * The request processor `_process`: it dispatches on the action string and
 * fills the response data, stopping at the first error it throws.
 */
module Processor {
  import opened Values
  import opened Actions
  import opened Statements
  import opened Reader
  import opened Mutation

  /** The log, the response data, and the error `_process` threw, if any. */
  datatype Outcome = Outcome(log: seq<Statement>, data: seq<OutRow>, error: Option<Error>)

  /** `Object.keys(http.data)`: the wire ids of the submitted rows. */
  function Keys(rows: seq<(string, Row)>): (keys: seq<string>)
    ensures |keys| == |rows|
  {
    seq(|rows|, i requires 0 <= i < |rows| => rows[i].0)
  }

  /** `_insert(values)` when creating, else `_update(id, values)`. */
  function WriteOne(c: Config, st: Store, log: seq<Statement>, row: (string, Row), create: bool): (r: Run<Option<OutRow>>)
  {
    if create then InsertRun(c, st, log, row.1) else UpdateRun(c, st, log, row.0, row.1)
  }

  /** What writing one submitted row does, given the statements issued so far. */
  type Writer = (seq<Statement>, (string, Row)) -> Run<Option<OutRow>>

  /** The writer the create/edit loop uses. */
  function WriterOf(c: Config, st: Store, create: bool): (r: Writer)
  {
    (log: seq<Statement>, row: (string, Row)) => WriteOne(c, st, log, row, create)
  }

  /** The create/edit loop over the first `n` submitted rows: a returned row is pushed, a thrown error stops the loop. */
  function WriteLoop(w: Writer, log: seq<Statement>, rows: seq<(string, Row)>, n: nat): (r: Outcome)
    requires n <= |rows|
    decreases n
  {
    if n == 0 then Outcome(log, [], None)
    else
      var prev := WriteLoop(w, log, rows, n - 1);
      if prev.error.Some? then prev
      else
        var r := w(prev.log, rows[n - 1]);
        match r.result
        case Failure(e) => Outcome(r.log, prev.data, Some(e))
        case Success(d) => Outcome(r.log, prev.data + (if d.Some? then [d.value] else []), None)
  }

  /** One more submitted row, after a prefix that threw nothing. */
  lemma WriteLoopStep(w: Writer, log: seq<Statement>, rows: seq<(string, Row)>, i: nat)
    requires i < |rows| && WriteLoop(w, log, rows, i).error.None?
    ensures var prev := WriteLoop(w, log, rows, i);
      var r := w(prev.log, rows[i]);
      WriteLoop(w, log, rows, i + 1) ==
        if r.result.Failure? then Outcome(r.log, prev.data, Some(r.result.error))
        else Outcome(r.log, prev.data + (if r.result.value.Some? then [r.result.value.value] else []), None)
  {
  }

  /** After the first error nothing more is written and the data pushed so far is kept. */
  lemma {:induction false} WriteLoopStopsAtFailure(w: Writer, log: seq<Statement>, rows: seq<(string, Row)>, m: nat, n: nat)
    requires m <= n <= |rows| && WriteLoop(w, log, rows, m).error.Some?
    ensures WriteLoop(w, log, rows, n) == WriteLoop(w, log, rows, m)
    decreases n
  {
    if n > m {
      WriteLoopStopsAtFailure(w, log, rows, m, n - 1);
    }
  }

  /** Each submitted row contributes at most one output row. */
  lemma {:induction false} WriteLoopBound(w: Writer, log: seq<Statement>, rows: seq<(string, Row)>, n: nat)
    requires n <= |rows|
    ensures |WriteLoop(w, log, rows, n).data| <= n
    decreases n
  {
    if n > 0 {
      WriteLoopBound(w, log, rows, n - 1);
    }
  }

  /** Rows already pushed are never dropped: the data after `m` rows is a prefix of the data after `n`. */
  lemma {:induction false} WriteLoopKeeps(w: Writer, log: seq<Statement>, rows: seq<(string, Row)>, m: nat, n: nat)
    requires m <= n <= |rows|
    ensures WriteLoop(w, log, rows, m).data <= WriteLoop(w, log, rows, n).data
    decreases n
  {
    if m < n {
      WriteLoopKeeps(w, log, rows, m, n - 1);
    }
  }

  /** `_process(data)`. */
  function ProcessOutcome(c: Config, st: Store, log: seq<Statement>, req: Request): (r: Outcome)
  {
    match Dispatch(req.action)
    case ReadRows =>
      var g := GetRun(c, st, log, None);
      if g.result.Success? then Outcome(g.log, g.result.value, None) else Outcome(g.log, [], Some(g.result.error))
    case SkipUpload => Outcome(log, [], None)
    case RemoveRows =>
      if req.data.None? then Outcome(log, [], Some(NoSubmittedData))
      else
        var r := RemoveRun(c, log, Keys(req.data.value));
        Outcome(r.log, [], if r.result.Success? then None else Some(r.result.error))
    case CreateRows =>
      if req.data.None? then Outcome(log, [], Some(NoSubmittedData))
      else WriteLoop(WriterOf(c, st, true), log, req.data.value, |req.data.value|)
    case EditRows =>
      if req.data.None? then Outcome(log, [], Some(NoSubmittedData))
      else WriteLoop(WriterOf(c, st, false), log, req.data.value, |req.data.value|)
  }

  /** An upload request issues nothing and responds with no data. */
  lemma UploadDoesNothing(c: Config, st: Store, log: seq<Statement>, data: Option<seq<(string, Row)>>)
    ensures ProcessOutcome(c, st, log, Request(Some("upload"), data)) == Outcome(log, [], None)
  {
  }

  /**
   * A request without an action reads: it issues one unrestricted select of
   * the projection, and responds with every row built from the result.
   */
  lemma ReadSelectsAll(c: Config, st: Store, log: seq<Statement>, req: Request)
    requires !HasAction(Some(req))
    ensures var o := ProcessOutcome(c, st, log, req);
      var sel := Select(c.tables, Projection(c.pkey, c.fields), None);
      o.log == log + [sel] &&
      (st.rows(log + [sel]).None? ==> o == Outcome(log + [sel], [], Some(ExecutionFailure))) &&
      (st.rows(log + [sel]).Some? && Synthesize(c, st.rows(log + [sel]).value).Success? ==>
        o.error.None? && o.data == Synthesize(c, st.rows(log + [sel]).value).value)
  {
  }

  /** Remove, create and edit requests without data throw before issuing anything. */
  lemma MissingDataThrows(c: Config, st: Store, log: seq<Statement>, action: string)
    requires action != "" && action != "upload"
    ensures ProcessOutcome(c, st, log, Request(Some(action), None)) == Outcome(log, [], Some(NoSubmittedData))
  {
  }

  /**
   * An action string `Editor.action` rejects is processed as an edit: each
   * submitted row is updated at its wire id.
   */
  lemma UnknownActionEdits(c: Config, st: Store, log: seq<Statement>, req: Request)
    requires ActionOf(Some(req)).Failure? && req.data.Some?
    ensures ProcessOutcome(c, st, log, req) == WriteLoop(WriterOf(c, st, false), log, req.data.value, |req.data.value|)
  {
    DispatchAgreesWithAction(req);
  }
}

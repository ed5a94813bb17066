/**
 * Request actions: the static `Editor.action` classification and the
 * dispatch `_process` performs on the same action string.
 */
module Actions {
  import opened Values

  datatype Action = Read | Create | Edit | Delete | Upload

  /**
   * A client request: its optional `action` string and its optional `data`,
   * the submitted rows as (wire row id, submitted values) in the order
   * `Object.keys` lists them.
   */
  datatype Request = Request(action: Option<string>, data: Option<seq<(string, Row)>>)

  /** The request names an action: it is present and the string is truthy. */
  predicate HasAction(http: Option<Request>)
  {
    http.Some? && http.value.action.Some? && http.value.action.value != ""
  }

  /** The action string a client sends for each action other than Read. */
  function ActionName(a: Action): (r: string)
    requires a != Read
  {
    match a
    case Create => "create"
    case Edit => "edit"
    case Delete => "remove"
    case Upload => "upload"
  }

  /** `Editor.action(http)`; a `null` request is `None`. */
  function ActionOf(http: Option<Request>): (r: Result<Action>)
    ensures r == Success(Read) <==> !HasAction(http)
    ensures r.Success? && r.value != Read ==> ActionName(r.value) == http.value.action.value
    ensures r.Failure? ==> HasAction(http) && r.error == UnknownAction(http.value.action.value)
  {
    if !HasAction(http) then Success(Read)
    else
      match http.value.action.value
      case "create" => Success(Create)
      case "edit" => Success(Edit)
      case "remove" => Success(Delete)
      case "upload" => Success(Upload)
      case other => Failure(UnknownAction(other))
  }

  /** Every action except Read is recognised from its name, and only from it. */
  lemma ActionNameRoundTrip(a: Action, rest: Option<seq<(string, Row)>>)
    requires a != Read
    ensures ActionOf(Some(Request(Some(ActionName(a)), rest))) == Success(a)
  {
  }

  /** An action string is accepted exactly when it is empty or one of the four names. */
  lemma ActionAccepted(s: string, rest: Option<seq<(string, Row)>>)
    ensures ActionOf(Some(Request(Some(s), rest))).Success?
        <==> s in {"", "create", "edit", "remove", "upload"}
  {
  }

  /** The branch `_process` takes for a request. */
  datatype Branch = ReadRows | SkipUpload | RemoveRows | CreateRows | EditRows

  /**
   * `_process`'s dispatch: no action reads, "upload" does nothing, "remove"
   * deletes, "create" inserts and ANY other string edits.
   */
  function Dispatch(action: Option<string>): (r: Branch)
  {
    if action.None? || action.value == "" then ReadRows
    else if action.value == "upload" then SkipUpload
    else if action.value == "remove" then RemoveRows
    else if action.value == "create" then CreateRows
    else EditRows
  }

  /**
   * `_process` agrees with `Editor.action` on every string `Editor.action`
   * accepts, and treats every string it rejects as an edit.
   */
  lemma DispatchAgreesWithAction(req: Request)
    ensures ActionOf(Some(req)) == Success(Read) <==> Dispatch(req.action) == ReadRows
    ensures ActionOf(Some(req)) == Success(Upload) <==> Dispatch(req.action) == SkipUpload
    ensures ActionOf(Some(req)) == Success(Delete) <==> Dispatch(req.action) == RemoveRows
    ensures ActionOf(Some(req)) == Success(Create) <==> Dispatch(req.action) == CreateRows
    ensures ActionOf(Some(req)) == Success(Edit) || ActionOf(Some(req)).Failure?
        <==> Dispatch(req.action) == EditRows
  {
  }
}

/**
  The session middleware: loading the session into the request, looking it up
  again downstream, and the decision whether to write it back to the store.

  The session store itself (cookie encoding, signing, the backing storage) is
  outside this model: its `Get` is a function parameter of `ServeHTTP`, and the
  outcome of its `Save` is an input of `Save`.
 */
module Sessions {

  datatype Option<T> = None | Some(value: T)

  /** Keys of a session's value table. The store accepts keys of any type;
      every key this code uses is a string. */
  type Key = string

  /** A value held in a session's table: nothing (a nil interface), a table of
      flash messages by category, or any other value the application stores. */
  datatype Value = Nil | FlashTable(table: map<string, seq<string>>) | Other(repr: string)

  /** The store's session object, updated in place by the handlers of one request. */
  class Session {
    var isNew: bool
    var values: map<Key, Value>

    constructor (isNew: bool, values: map<Key, Value>)
      ensures this.isNew == isNew && this.values == values
    {
      this.isNew := isNew;
      this.values := values;
    }
  }

  /** The name under which the session is loaded from the store. */
  const SessionName: string := "RootSession"

  const StatusInternalServerError: int := 500

  const LoadFailureBody: string := "Failed to load session, check logs for details"

  /** An HTTP request: `target` stands for everything the middleware does not
      look at, `attached` for the session stored in its context, if any. */
  datatype Request = Request(target: string, attached: Option<Session>)

  /** What the store's `Get` gives back for a request and a session name. */
  datatype LoadResult = Loaded(session: Session) | LoadFailed(err: string)

  /** What the middleware does with one request: answer it with an error, or
      call the wrapped handler once with `request`. */
  datatype Dispatch = InternalError(status: int, body: string) | Forwarded(request: Request)

  /** What `Save` does: nothing, or call the store's save, whose failure is
      only logged. */
  datatype SaveOutcome = Skipped | Persisted(errorLogged: bool)

  /** The session a request carries in its context. A request that did not
      pass through the middleware has none: calling `Get` on it is a wiring
      error, excluded by the precondition. */
  function Get(r: Request): (s: Session)
    requires r.attached.Some?
    ensures r.attached == Some(s)
  {
    r.attached.value
  }

  /** The session is not written back when the request brought none and
      nothing was stored in it. */
  predicate SkipsPersist(isNew: bool, values: map<Key, Value>)
  {
    isNew && |values| == 0
  }

  /** Loads the session named `SessionName` with the store's `Get`; on failure
      answers 500 without calling the wrapped handler, otherwise forwards the
      request with the session attached to its context. */
  method ServeHTTP(storeGet: (Request, string) -> LoadResult, r: Request) returns (d: Dispatch)
    ensures storeGet(r, SessionName).LoadFailed? <==> d.InternalError?
    ensures d.InternalError? ==> d.status == StatusInternalServerError && d.body == LoadFailureBody
    ensures d.Forwarded? ==>
              && d.request.attached.Some?
              && Get(d.request) == storeGet(r, SessionName).session
              && d.request.target == r.target
  {
    var loaded := storeGet(r, SessionName);
    if loaded.LoadFailed? {
      return InternalError(StatusInternalServerError, LoadFailureBody);
    }
    d := Forwarded(r.(attached := Some(loaded.session)));
  }

  /** Writes the request's session back through the store unless it is new
      and empty. `persistFails` is the outcome of the store's save; a failure
      is logged and has no other effect. The session is not modified. */
  method Save(r: Request, persistFails: bool) returns (outcome: SaveOutcome)
    requires r.attached.Some?
    ensures Get(r).isNew && |Get(r).values| == 0 ==> outcome == Skipped
    ensures Get(r).isNew && |Get(r).values| > 0 ==> outcome == Persisted(persistFails)
    ensures !Get(r).isNew ==> outcome == Persisted(persistFails)
  {
    var s := Get(r);
    if SkipsPersist(s.isNew, s.values) {
      return Skipped;
    }
    outcome := Persisted(persistFails);
  }
}

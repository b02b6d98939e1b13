// The message envelope shared by both ends of the v2 plugin protocol, and the
// server's side of one exchange: routing a request to the handler and turning
// what the handler returned into a response.

module Wire {
  import opened Wrappers

  datatype WireError = WireError(code: string, message: string)

  /** One JSON value on either pipe. A request carries method and params, a response result or error. */
  datatype Message = Message(
    id: nat,
    verb: string,
    params: Option<string>,
    result: Option<string>,
    error: Option<WireError>)

  const CODE_INVALID := "INVALID"
  const CODE_INTERNAL := "INTERNAL"
  const SHUTDOWN := "shutdown"

  function Request(id: nat, verb: string, params: Option<string>): Message {
    Message(id, verb, params, None, None)
  }

  /** A Go error as the server sees it: a structured protocol error, or any other error's text. */
  datatype HandlerError = Structured(e: WireError) | Plain(text: string)

  /** What a handler method returns: a value that may be absent, and whose JSON encoding may fail, or an error. */
  datatype Encoded = Json(text: string) | Unencodable(why: string)
  datatype Returned = Value(v: Option<Encoded>) | Failed(err: HandlerError)

  function ToWireError(err: HandlerError): WireError {
    match err
    case Structured(e) => e
    case Plain(text) => WireError(CODE_INTERNAL, text)
  }

  /** The response ServeConn writes for a request once dispatch has returned. */
  function Respond(req: Message, ret: Returned): Message {
    match ret
    case Failed(err) => Message(req.id, "", None, None, Some(ToWireError(err)))
    case Value(None) => Acknowledge(req)
    case Value(Some(Json(text))) => Message(req.id, "", None, Some(text), None)
    case Value(Some(Unencodable(why))) =>
      Message(req.id, "", None, None, Some(WireError(CODE_INTERNAL, "marshal result: " + why)))
  }

  /** The empty response: the answer to shutdown and to a handler that returns no value. */
  function Acknowledge(req: Message): Message {
    Message(req.id, "", None, None, None)
  }

  /** A request as it must look on the wire: the call's ID, method and params, and nothing of a response. */
  ghost predicate Carries(m: Message, id: nat, verb: string, params: Option<string>) {
    && m.id == id && m.verb == verb && m.params == params
    && m.result == None && m.error == None
  }

  /** A response as the client must find it for what the handler returned: its value's text or its error, not both. */
  ghost predicate Conveys(resp: Message, req: Message, ret: Returned) {
    && resp.id == req.id && resp.verb == "" && resp.params == None
    && match ret
       case Value(None) => resp.result == None && resp.error == None
       case Value(Some(Json(text))) => resp.result == Some(text) && resp.error == None
       case Value(Some(Unencodable(why))) =>
         resp.result == None && resp.error == Some(WireError("INTERNAL", "marshal result: " + why))
       case Failed(Structured(e)) => resp.result == None && resp.error == Some(e)
       case Failed(Plain(text)) => resp.result == None && resp.error == Some(WireError("INTERNAL", text))
  }

  /** The message a call finds when the connection ended before its answer came. */
  ghost predicate SaysClosed(m: Message, id: nat, why: string) {
    && m.id == id && m.verb == "" && m.params == None
    && m.result == None && m.error == Some(WireError("INTERNAL", why))
  }
}

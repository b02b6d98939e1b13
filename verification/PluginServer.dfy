// The plugin end of the v2 protocol: one request at a time until the stream
// ends, a response cannot be written, or a shutdown request arrives.

module PluginServer {
  import opened Wrappers
  import opened Wire

  const METHODS: set<string> := {
    "handshake", "configure", "apply", "get", "list", "delete",
    "plan", "dryRun", "doAction", "ownerOf", "childrenOf"}

  /** A provider with internal state S. `reject` is the params decoder: Some(why) when the raw params do not decode. */
  datatype Handler<!S> = Handler(
    reject: (string, string) -> Option<string>,
    run: (S, string, Option<string>) -> (S, Returned))

  /** Routes one request. Handshake takes no params; configure and delete return no value. */
  function Dispatch<S>(h: Handler<S>, st: S, req: Message): (S, Returned) {
    if req.verb !in METHODS then
      (st, Failed(Structured(WireError(CODE_INVALID, "unknown method: " + req.verb))))
    else if req.verb == "handshake" then h.run(st, req.verb, None)
    else if req.params.Some? && req.params.value != "" && h.reject(req.verb, req.params.value).Some? then
      (st, Failed(Structured(WireError(CODE_INVALID, "decode params: " + h.reject(req.verb, req.params.value).value))))
    else
      var (st', ret) := h.run(st, req.verb, req.params);
      (st', if req.verb in {"configure", "delete"} && ret.Value? then Value(None) else ret)
  }

  datatype End = StreamEnded | ShutDown | BadInput(why: string) | WriteFailed

  /** The handler's state after it has been given `reqs` in order. A shutdown never reaches the handler. */
  ghost function After<S>(h: Handler<S>, st: S, reqs: seq<Message>): S {
    if reqs == [] then st
    else
      var last := reqs[|reqs| - 1];
      var before := After(h, st, reqs[..|reqs| - 1]);
      if last.verb == SHUTDOWN then before else Dispatch(h, before, last).0
  }

  /** The answer owed to the last of `reqs`, given that all of them arrive in order. */
  ghost function Owed<S>(h: Handler<S>, st: S, reqs: seq<Message>): Message
    requires reqs != []
  {
    var last := reqs[|reqs| - 1];
    if last.verb == SHUTDOWN then Acknowledge(last)
    else Respond(last, Dispatch(h, After(h, st, reqs[..|reqs| - 1]), last).1)
  }

  /** `out` answers the first |out| requests one for one, in order, under their IDs, and stops at a shutdown. */
  ghost predicate Answers<S>(h: Handler<S>, st: S, input: seq<Message>, out: seq<Message>) {
    && |out| <= |input|
    && (forall k :: 0 <= k < |out| ==> out[k] == Owed(h, st, input[..k + 1]))
    && (forall k :: 0 <= k < |out| - 1 ==> input[k].verb != SHUTDOWN)
  }

  /** What one request does to the handler and what it is answered, case by case. */
  ghost predicate AnswersRequest<S>(h: Handler<S>, before: S, req: Message, resp: Message, after: S) {
    if req.verb == "shutdown" then after == before && Conveys(resp, req, Value(None))
    else if req.verb !in {"handshake", "configure", "apply", "get", "list", "delete",
                          "plan", "dryRun", "doAction", "ownerOf", "childrenOf"} then
      after == before && Conveys(resp, req, Failed(Structured(WireError("INVALID", "unknown method: " + req.verb))))
    else if req.verb != "handshake" && req.params.Some? && req.params.value != ""
         && h.reject(req.verb, req.params.value).Some? then
      && after == before
      && Conveys(resp, req, Failed(Structured(
           WireError("INVALID", "decode params: " + h.reject(req.verb, req.params.value).value))))
    else
      var given := if req.verb == "handshake" then None else req.params;
      var (st, ret) := h.run(before, req.verb, given);
      && after == st
      && Conveys(resp, req,
                 if (req.verb == "configure" || req.verb == "delete") && ret.Value? then Value(None) else ret)
  }

  /** Every response answers its request, given what the requests before it made of the handler. */
  ghost predicate RightAnswers<S>(h: Handler<S>, init: S, input: seq<Message>, out: seq<Message>) {
    && |out| <= |input|
    && forall k :: 0 <= k < |out| ==> RightAnswer(h, init, input, k, out[k])
  }

  ghost predicate RightAnswer<S>(h: Handler<S>, init: S, input: seq<Message>, k: nat, resp: Message)
    requires k < |input|
  {
    AnswersRequest(h, After(h, init, input[..k]), input[k], resp, After(h, init, input[..k + 1]))
  }

  lemma OwedIsRight<S>(h: Handler<S>, init: S, input: seq<Message>, k: nat)
    requires k < |input|
    ensures RightAnswer(h, init, input, k, Owed(h, init, input[..k + 1]))
  {
    assert input[..k + 1][..k] == input[..k] && input[..k + 1][k] == input[k];
  }

  lemma AnswersAreRight<S>(h: Handler<S>, init: S, input: seq<Message>, out: seq<Message>)
    requires Answers(h, init, input, out)
    ensures RightAnswers(h, init, input, out)
  {
    forall k | 0 <= k < |out| ensures RightAnswer(h, init, input, k, out[k]) { OwedIsRight(h, init, input, k); }
  }

  lemma AnswerShape<S>(h: Handler<S>, st: S, input: seq<Message>, out: seq<Message>, k: nat)
    requires Answers(h, st, input, out) && k < |out|
    ensures out[k].id == input[k].id
    ensures out[k].result == None || out[k].error == None
    ensures input[k].verb == SHUTDOWN ==> out[k] == Acknowledge(input[k]) && |out| == k + 1
    ensures input[k].verb !in METHODS && input[k].verb != SHUTDOWN ==>
              out[k].error == Some(WireError(CODE_INVALID, "unknown method: " + input[k].verb))
    ensures input[k].verb in {"configure", "delete"} ==> out[k].result == None
  {
    assert out[k] == Owed(h, st, input[..k + 1]);
    assert input[..k + 1][k] == input[k];
  }

  /** The first n requests do not include a shutdown. */
  ghost predicate Running(input: seq<Message>, n: nat) {
    n <= |input| && forall k :: 0 <= k < n ==> input[k].verb != SHUTDOWN
  }

  lemma AnswersGrow<S>(h: Handler<S>, init: S, input: seq<Message>, out: seq<Message>, m: Message)
    requires Answers(h, init, input, out) && |out| < |input| && m == Owed(h, init, input[..|out| + 1])
    requires Running(input, |out|)
    ensures Answers(h, init, input, out + [m])
  {
  }

  lemma AcknowledgeNext<S>(h: Handler<S>, init: S, input: seq<Message>, out: seq<Message>)
    requires Answers(h, init, input, out) && |out| < |input| && Running(input, |out|) && input[|out|].verb == SHUTDOWN
    ensures Answers(h, init, input, out + [Acknowledge(input[|out|])])
    ensures After(h, init, input[..|out| + 1]) == After(h, init, input[..|out|])
  {
    assert input[..|out| + 1][..|out|] == input[..|out|];
    AnswersGrow(h, init, input, out, Acknowledge(input[|out|]));
  }

  lemma RespondNext<S>(h: Handler<S>, init: S, st: S, input: seq<Message>, out: seq<Message>)
    requires Answers(h, init, input, out) && |out| < |input| && Running(input, |out|) && input[|out|].verb != SHUTDOWN
    requires st == After(h, init, input[..|out|])
    ensures
      var req := input[|out|];
      && Answers(h, init, input, out + [Respond(req, Dispatch(h, st, req).1)])
      && After(h, init, input[..|out| + 1]) == Dispatch(h, st, req).0
  {
    assert input[..|out| + 1][..|out|] == input[..|out|];
    AnswersGrow(h, init, input, out, Respond(input[|out|], Dispatch(h, st, input[|out|]).1));
  }

  /** ServeConn over the requests the decoder yields before the stream ends (or, with `bad`, breaks);
      `writable(k)` says whether the k-th response can be written. */
  method ServeConn<S>(h: Handler<S>, init: S, input: seq<Message>, bad: Option<string>, writable: nat -> bool)
    returns (out: seq<Message>, end: End)
    ensures Answers(h, init, input, out) && RightAnswers(h, init, input, out)
    ensures end.StreamEnded? ==> bad == None
    ensures end.BadInput? ==> bad == Some(end.why)
    ensures end.StreamEnded? || end.BadInput? ==> |out| == |input| && Running(input, |input|)
    ensures end.WriteFailed? ==>
              |out| < |input| && !writable(|out|) && Running(input, |out| + 1)
    ensures end.ShutDown? ==>
              || (out != [] && input[|out| - 1].verb == SHUTDOWN)
              || (|out| < |input| && input[|out|].verb == SHUTDOWN && !writable(|out|))
  {
    out := [];
    var st := init;
    while |out| < |input|
      invariant Answers(h, init, input, out)
      invariant Running(input, |out|)
      invariant st == After(h, init, input[..|out|])
      decreases |input| - |out|
    {
      var k := |out|;
      var req := input[k];
      if req.verb == SHUTDOWN {
        AcknowledgeNext(h, init, input, out);
        if writable(k) {
          out := out + [Acknowledge(req)];
        }
        AnswersAreRight(h, init, input, out);
        return out, ShutDown;
      }
      var (st', ret) := Dispatch(h, st, req);
      if !writable(k) {
        AnswersAreRight(h, init, input, out);
        return out, WriteFailed;
      }
      RespondNext(h, init, st, input, out);
      out := out + [Respond(req, ret)];
      st := st';
    }
    AnswersAreRight(h, init, input, out);
    return out, match bad case None => StreamEnded case Some(why) => BadInput(why);
  }
}

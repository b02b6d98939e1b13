// Client and server joined by two FIFO pipes. A pipe is the log of everything
// ever written to it together with the number of messages its reader has
// taken; the handler's answer to each request is arbitrary.

module PluginSession {
  import opened Wrappers
  import opened Wire
  import C = PluginClient
  import P = PluginServer

  datatype Sys = Sys(
    client: C.State,
    requests: seq<Message>,   // everything written to the plugin's stdin, in wire order
    inputOpen: bool,          // Close has not closed that pipe yet
    responses: seq<Message>,  // everything the server has answered; request k is answered by response k
    serverLive: bool,
    read: nat)                // responses the client's reader has decoded

  datatype Step =
    | Local(step: C.Step)           // a client step that touches neither pipe
    | SendRequest(c: nat)
    | CloseInput(c: nat)
    | Serve(ret: Returned)
    | ServeShutdown
    | ServeEof
    | Crash
    | ReadResponse
    | ReadEnd(err: C.ReadError)

  const INITIAL := Sys(C.INITIAL, [], true, [], true, 0)

  function RequestOf(s: Sys, c: nat, id: nat): Message
    requires c < |s.client.calls|
  {
    Request(id, s.client.calls[c].verb, s.client.calls[c].params)
  }

  predicate Enabled(s: Sys, step: Step) {
    match step
    case Local(l) => !l.Write? && !l.Decode? && !l.DecodeErr? && C.Enabled(s.client, l)
    case SendRequest(c) => s.inputOpen && C.Enabled(s.client, C.Write(c))
    case CloseInput(c) =>
      s.inputOpen && c < |s.client.calls| && s.client.calls[c].verb == SHUTDOWN && s.client.calls[c].pc.Finished?
    case Serve(_) =>
      s.serverLive && |s.responses| < |s.requests| && s.requests[|s.responses|].verb != SHUTDOWN
    case ServeShutdown =>
      s.serverLive && |s.responses| < |s.requests| && s.requests[|s.responses|].verb == SHUTDOWN
    case ServeEof => s.serverLive && |s.responses| == |s.requests| && !s.inputOpen
    case Crash => s.serverLive
    case ReadResponse => s.read < |s.responses| && s.client.reader.Decoding?
    case ReadEnd(_) => s.read == |s.responses| && !s.serverLive && s.client.reader.Decoding?
  }

  function Next(s: Sys, step: Step): Sys
    requires Enabled(s, step)
  {
    match step
    case Local(l) => s.(client := C.Next(s.client, l))
    case SendRequest(c) =>
      s.(client := C.Next(s.client, C.Write(c)), requests := s.requests + [RequestOf(s, c, C.Pcs(s.client, c).id)])
    case CloseInput(_) => s.(inputOpen := false)
    case Serve(ret) => s.(responses := s.responses + [Respond(s.requests[|s.responses|], ret)])
    case ServeShutdown => s.(responses := s.responses + [Acknowledge(s.requests[|s.responses|])], serverLive := false)
    case ServeEof => s.(serverLive := false)
    case Crash => s.(serverLive := false)
    case ReadResponse => s.(client := C.Next(s.client, C.Decode(s.responses[s.read])), read := s.read + 1)
    case ReadEnd(err) => s.(client := C.Next(s.client, C.DecodeErr(err)))
  }

  // --- the invariant ---

  /** The server's half: answers follow requests in order under the same IDs, and nothing follows a shutdown. */
  ghost predicate ServerOk(s: Sys) {
    && s.read <= |s.responses| <= |s.requests|
    && (forall i :: 0 <= i < |s.responses| ==> s.responses[i].id == s.requests[i].id)
    && (forall i :: 0 <= i < |s.responses| ==> s.responses[i].result == None || s.responses[i].error == None)
    && (forall i :: 0 <= i < |s.responses| && s.requests[i].verb == SHUTDOWN ==>
          i == |s.responses| - 1 && !s.serverLive)
  }

  /** The i-th request is its ID's owner's, and was written after that call registered. */
  ghost predicate RequestAt(s: Sys, i: nat)
    requires i < |s.requests|
  {
    var id := s.requests[i].id;
    && id in s.client.table.channels && id in s.client.owner
    && s.client.owner[id] < |s.client.calls|
    && Carries(s.requests[i], id, s.client.calls[s.client.owner[id]].verb, s.client.calls[s.client.owner[id]].params)
    && !C.Pcs(s.client, s.client.owner[id]).Registered?
  }

  /** Every written request is the one its ID's owner asked for, and no ID is written twice. */
  ghost predicate RequestsOk(s: Sys) {
    && (forall i :: 0 <= i < |s.requests| ==> RequestAt(s, i))
    && (forall i, j :: 0 <= i < j < |s.requests| ==> s.requests[i].id != s.requests[j].id)
  }

  /** The k-th response has been read and is `m`. */
  ghost predicate ReadAs(s: Sys, k: nat, m: Message) { k < s.read <= |s.responses| && s.responses[k] == m }

  /** Whatever has been handed to a call was read off the wire, or is failAll's own message. */
  ghost predicate DeliveriesOk(s: Sys) {
    && (forall id, m :: id in s.client.table.channels && m in s.client.table.channels[id].sent ==>
          || (exists k :: ReadAs(s, k, m))
          || (s.client.table.closed && m == C.ConnectionClosed(id, s.client.table.closeErr)))
    && (s.client.reader.Holding? ==> exists k :: ReadAs(s, k, s.client.reader.msg))
  }

  /** The request written under `id` sits at wire position `k` and its answer has not been read. */
  ghost predicate Unread(s: Sys, k: nat, id: nat) { s.read <= k < |s.requests| && s.requests[k].id == id }

  /** A waiting call that is still in the pending table has its answer ahead of the reader. */
  ghost predicate ExpectationsOk(s: Sys) {
    forall c :: 0 <= c < |s.client.calls| && C.Pcs(s.client, c).Waiting?
      && C.Pcs(s.client, c).id in s.client.table.pending
      ==> exists k :: Unread(s, k, C.Pcs(s.client, c).id)
  }

  /** Where the answer to the request at wire position `k` can be: ahead of the reader while its ID is pending, in the
      reader's hands or its channel once read, and made up by failAll only if the stream ended before it. */
  ghost predicate AnswerAt(s: Sys, k: nat)
    requires s.read <= |s.responses| && k < |s.requests|
  {
    var id := s.requests[k].id;
    && id in s.client.table.channels
    && (id in s.client.table.pending ==> s.read <= k)
    && (s.client.reader.Holding? && s.client.reader.id == id ==> k < s.read && s.client.reader.msg == s.responses[k])
    && (forall m :: m in s.client.table.channels[id].sent ==>
          if k < s.read then m == s.responses[k] else s.client.table.closed)
  }

  ghost predicate AnswersOk(s: Sys)
    requires s.read <= |s.responses|
  {
    forall k :: 0 <= k < |s.requests| ==> AnswerAt(s, k)
  }

  ghost predicate Inv(s: Sys) {
    && C.Inv(s.client)
    && ServerOk(s)
    && RequestsOk(s)
    && DeliveriesOk(s)
    && ExpectationsOk(s)
    && AnswersOk(s)
    && (!s.client.reader.Decoding? && !s.client.reader.Holding? ==> !s.serverLive && s.read == |s.responses|)
  }

  /** The client step a session step contains. */
  function ClientStep(s: Sys, step: Step): Option<C.Step>
    requires Enabled(s, step)
  {
    match step
    case Local(l) => Some(l)
    case SendRequest(c) => Some(C.Write(c))
    case ReadResponse => Some(C.Decode(s.responses[s.read]))
    case ReadEnd(err) => Some(C.DecodeErr(err))
    case _ => None
  }

  /** What one step does: at most one client step on the client's side, at most one append or one read on each pipe. */
  ghost predicate Moves(s: Sys, step: Step, t: Sys) {
    && Enabled(s, step)
    && (match ClientStep(s, step)
        case Some(l) => C.Effect(s.client, l, t.client)
        case None => t.client == s.client)
    && t.requests == (if step.SendRequest? then s.requests + [RequestOf(s, step.c, C.Pcs(s.client, step.c).id)]
                      else s.requests)
    && s.responses <= t.responses
    && t.read == (if step.ReadResponse? then s.read + 1 else s.read)
    && C.Inv(s.client) && C.Inv(t.client)
  }

  lemma StepMoves(s: Sys, step: Step)
    requires C.Inv(s.client) && Enabled(s, step)
    ensures Moves(s, step, Next(s, step))
  {
    match ClientStep(s, step)
    case Some(l) => C.StepHasEffect(s.client, l); C.InvStep(s.client, l);
    case None =>
  }

  lemma RequestKept(s: Sys, step: Step, t: Sys, i: nat)
    requires Moves(s, step, t) && i < |s.requests| && RequestAt(s, i)
    ensures RequestAt(t, i)
  {
    assert C.CallOk(t.client, s.client.owner[s.requests[i].id]);
  }

  /** No written request carries the ID of a call that has not written yet. */
  lemma NotYetWritten(s: Sys, c: nat)
    requires C.Inv(s.client) && RequestsOk(s) && c < |s.client.calls| && C.Pcs(s.client, c).Registered?
    ensures forall i :: 0 <= i < |s.requests| ==> s.requests[i].id != C.Pcs(s.client, c).id
  {
    assert C.CallOk(s.client, c);
    forall i | 0 <= i < |s.requests| ensures s.requests[i].id != C.Pcs(s.client, c).id {
      assert RequestAt(s, i);
    }
  }

  lemma NewRequest(s: Sys, step: Step, t: Sys)
    requires RequestsOk(s) && Moves(s, step, t) && step.SendRequest?
    ensures RequestAt(t, |s.requests|)
  {
    assert C.CallOk(s.client, step.c);
  }

  lemma RequestsKept(s: Sys, step: Step, t: Sys)
    requires RequestsOk(s) && Moves(s, step, t)
    ensures RequestsOk(t)
  {
    if step.SendRequest? { NotYetWritten(s, step.c); }
    forall i | 0 <= i < |t.requests| ensures RequestAt(t, i) {
      if i < |s.requests| { RequestKept(s, step, t, i); } else { NewRequest(s, step, t); }
    }
  }

  lemma DeliveriesKept(s: Sys, step: Step, t: Sys)
    requires DeliveriesOk(s) && s.read <= |s.responses| && Moves(s, step, t)
    ensures DeliveriesOk(t)
  {
    ReadingsLast(s, step, t);
    if step == ReadResponse {
      assert ReadAs(t, s.read, s.responses[s.read]);
    }
  }

  lemma ReadingsLast(s: Sys, step: Step, t: Sys)
    requires s.read <= |s.responses| && Moves(s, step, t)
    ensures forall k, m :: ReadAs(s, k, m) ==> ReadAs(t, k, m)
  {
  }

  lemma ExpectationKept(s: Sys, step: Step, t: Sys, c: nat)
    requires ExpectationsOk(s) && ServerOk(s) && Moves(s, step, t) && c < |t.client.calls|
    requires C.Pcs(t.client, c).Waiting? && C.Pcs(t.client, c).id in t.client.table.pending
    ensures exists k :: Unread(t, k, C.Pcs(t.client, c).id)
  {
    var id := C.Pcs(t.client, c).id;
    if step == SendRequest(c) {
      assert Unread(t, |s.requests|, id);
    } else {
      assert C.Pcs(s.client, c) == C.Pcs(t.client, c);
      assert C.CallOk(s.client, c);
      var k :| Unread(s, k, id);
      assert Unread(t, k, id);
    }
  }

  lemma ExpectationsKept(s: Sys, step: Step, t: Sys)
    requires ExpectationsOk(s) && ServerOk(s) && Moves(s, step, t)
    ensures ExpectationsOk(t)
  {
    forall c | 0 <= c < |t.client.calls| && C.Pcs(t.client, c).Waiting?
               && C.Pcs(t.client, c).id in t.client.table.pending
      ensures exists k :: Unread(t, k, C.Pcs(t.client, c).id)
    {
      ExpectationKept(s, step, t, c);
    }
  }

  ghost predicate Settled(s: Sys) {
    C.Inv(s.client) && ServerOk(s) && RequestsOk(s) && DeliveriesOk(s)
  }

  /** The response read in this step is no other request's. */
  lemma ReadOne(s: Sys, step: Step, k: nat)
    requires RequestsOk(s) && ServerOk(s) && Enabled(s, step) && k < |s.requests| && step == ReadResponse
    ensures s.responses[s.read].id == s.requests[k].id <==> k == s.read
  {
  }

  lemma PendingKept(s: Sys, step: Step, t: Sys, k: nat)
    requires Settled(s) && k < |s.requests| && AnswerAt(s, k) && Moves(s, step, t) && ServerOk(t)
    ensures t.requests[k].id in t.client.table.pending ==> t.read <= k
  {
    if step == ReadResponse { ReadOne(s, step, k); }
  }

  lemma HeldKept(s: Sys, step: Step, t: Sys, k: nat)
    requires Settled(s) && k < |s.requests| && AnswerAt(s, k) && Moves(s, step, t) && ServerOk(t)
    ensures t.client.reader.Holding? && t.client.reader.id == t.requests[k].id ==>
              k < t.read && t.client.reader.msg == t.responses[k]
  {
    if step == ReadResponse { ReadOne(s, step, k); }
  }

  lemma SentKept(s: Sys, step: Step, t: Sys, k: nat)
    requires Settled(s) && k < |s.requests| && AnswerAt(s, k) && Moves(s, step, t) && ServerOk(t)
    ensures
      var id := t.requests[k].id;
      && id in t.client.table.channels
      && (forall m :: m in t.client.table.channels[id].sent ==>
            if k < t.read then m == t.responses[k] else t.client.table.closed)
  {
    assert C.IdOk(t.client, s.requests[k].id);
    if step == ReadResponse { ReadOne(s, step, k); }
  }

  lemma OldAnswerKept(s: Sys, step: Step, t: Sys, k: nat)
    requires Settled(s) && k < |s.requests| && AnswerAt(s, k) && Moves(s, step, t) && ServerOk(t)
    ensures AnswerAt(t, k)
  {
    PendingKept(s, step, t, k);
    HeldKept(s, step, t, k);
    SentKept(s, step, t, k);
  }

  /** No response can carry the ID of a call that has not written its request. */
  lemma NothingReadYet(s: Sys, c: nat, k: nat, m: Message)
    requires Settled(s) && c < |s.client.calls| && C.Pcs(s.client, c).Registered? && ReadAs(s, k, m)
    ensures m.id != C.Pcs(s.client, c).id
  {
    NotYetWritten(s, c);
  }

  lemma NewAnswerStarts(s: Sys, step: Step, t: Sys)
    requires Settled(s) && step.SendRequest? && Moves(s, step, t) && ServerOk(t)
    ensures AnswerAt(t, |s.requests|)
  {
    var c := step.c;
    var id := C.Pcs(s.client, c).id;
    assert C.CallOk(s.client, c) && C.IdOk(s.client, id) && C.IdOk(t.client, id);
    forall k, m | ReadAs(s, k, m) ensures m.id != id { NothingReadYet(s, c, k, m); }
  }

  lemma AnswersKept(s: Sys, step: Step, t: Sys)
    requires Settled(s) && AnswersOk(s) && Moves(s, step, t) && ServerOk(t)
    ensures AnswersOk(t)
  {
    forall k | 0 <= k < |t.requests| ensures AnswerAt(t, k) {
      if k < |s.requests| { OldAnswerKept(s, step, t, k); } else { NewAnswerStarts(s, step, t); }
    }
  }

  lemma ServerKept(s: Sys, step: Step)
    requires ServerOk(s) && Enabled(s, step)
    ensures ServerOk(Next(s, step))
  {
  }

  lemma ReaderSeesEnd(s: Sys, step: Step)
    requires Inv(s) && Enabled(s, step)
    ensures
      var t := Next(s, step);
      !t.client.reader.Decoding? && !t.client.reader.Holding? ==> !t.serverLive && t.read == |t.responses|
  {
  }

  lemma InvStep(s: Sys, step: Step)
    requires Inv(s) && Enabled(s, step)
    ensures Inv(Next(s, step))
  {
    var t := Next(s, step);
    StepMoves(s, step);
    ServerKept(s, step);
    RequestsKept(s, step, t);
    DeliveriesKept(s, step, t);
    ExpectationsKept(s, step, t);
    AnswersKept(s, step, t);
    ReaderSeesEnd(s, step);
  }

  ghost predicate IsRun(trace: seq<Sys>, steps: seq<Step>) {
    && |trace| == |steps| + 1
    && trace[0] == INITIAL
    && (forall i :: 0 <= i < |steps| ==> Enabled(trace[i], steps[i]) && trace[i + 1] == Next(trace[i], steps[i]))
  }

  lemma {:induction false} InvHolds(trace: seq<Sys>, steps: seq<Step>, n: nat)
    requires IsRun(trace, steps) && n < |trace|
    ensures Inv(trace[n])
  {
    if n > 0 {
      InvHolds(trace, steps, n - 1);
      InvStep(trace[n - 1], steps[n - 1]);
    }
  }

  // --- correlation ---

  /** Each response is what the handler returned, at some earlier step, for the request at the same wire position. */
  ghost predicate Produced(trace: seq<Sys>, steps: seq<Step>, i: nat, k: nat, m: Message) {
    && i < |steps| && i < |trace| && |trace[i].responses| == k < |trace[i].requests|
    && ((steps[i].Serve? && Conveys(m, trace[i].requests[k], steps[i].ret))
        || (steps[i] == ServeShutdown && Conveys(m, trace[i].requests[k], Value(None))))
  }

  lemma {:induction false} PipesOnlyGrow(trace: seq<Sys>, steps: seq<Step>, i: nat, n: nat)
    requires IsRun(trace, steps) && i <= n < |trace|
    ensures trace[i].requests <= trace[n].requests
    ensures trace[i].responses <= trace[n].responses
  {
    if i < n {
      PipesOnlyGrow(trace, steps, i, n - 1);
      PipesGrowAt(trace, steps, n - 1);
    }
  }

  lemma PipesGrowAt(trace: seq<Sys>, steps: seq<Step>, n: nat)
    requires IsRun(trace, steps) && n < |steps|
    ensures trace[n].requests <= trace[n + 1].requests && trace[n].responses <= trace[n + 1].responses
  {
    PipesGrow(trace[n], steps[n]);
  }

  lemma PipesGrow(s: Sys, step: Step)
    requires Enabled(s, step)
    ensures s.requests <= Next(s, step).requests && s.responses <= Next(s, step).responses
    ensures |Next(s, step).responses| > |s.responses| ==>
              && |s.responses| < |s.requests|
              && var m := Next(s, step).responses[|s.responses|];
                 && |Next(s, step).responses| == |s.responses| + 1
                 && ((step.Serve? && Conveys(m, s.requests[|s.responses|], step.ret))
                     || (step == ServeShutdown && Conveys(m, s.requests[|s.responses|], Value(None))))
  {
  }

  lemma {:induction false} ResponsesAreProduced(trace: seq<Sys>, steps: seq<Step>, n: nat, k: nat)
    requires IsRun(trace, steps) && n < |trace| && k < |trace[n].responses|
    ensures exists i :: 0 <= i < n && Produced(trace, steps, i, k, trace[n].responses[k])
  {
    if n > 0 {
      PipesGrow(trace[n - 1], steps[n - 1]);
      if k < |trace[n - 1].responses| {
        ResponsesAreProduced(trace, steps, n - 1, k);
        var i :| 0 <= i < n - 1 && Produced(trace, steps, i, k, trace[n - 1].responses[k]);
        assert trace[n].responses[k] == trace[n - 1].responses[k];
      } else {
        assert Produced(trace, steps, n - 1, k, trace[n].responses[k]);
      }
    }
  }

  /** Every request on the wire is one call's, and carries the method and params with which its caller started it. */
  lemma WireCarriesTheCall(trace: seq<Sys>, steps: seq<Step>, n: nat, k: nat)
    requires IsRun(trace, steps) && n < |trace| && k < |trace[n].requests|
    ensures
      var s, m := trace[n], trace[n].requests[k];
      && m.id in s.client.owner && s.client.owner[m.id] < |s.client.calls|
      && C.Pcs(s.client, s.client.owner[m.id]).Id() == m.id
      && m.verb == s.client.calls[s.client.owner[m.id]].verb && m.params == s.client.calls[s.client.owner[m.id]].params
      && m.result == None && m.error == None
      && exists i :: 0 <= i < n && |trace[i].client.calls| == s.client.owner[m.id]
                && steps[i] == Local(C.Start(m.verb, m.params))
  {
    InvHolds(trace, steps, n);
    assert RequestAt(trace[n], k);
    assert C.IdOk(trace[n].client, trace[n].requests[k].id);
    CallsWereStarted(trace, steps, n, trace[n].client.owner[trace[n].requests[k].id]);
  }

  lemma {:induction false} CallsWereStarted(trace: seq<Sys>, steps: seq<Step>, n: nat, c: nat)
    requires IsRun(trace, steps) && n < |trace| && c < |trace[n].client.calls|
    ensures exists i :: 0 <= i < n && |trace[i].client.calls| == c
                   && steps[i] == Local(C.Start(trace[n].client.calls[c].verb, trace[n].client.calls[c].params))
  {
    InvHolds(trace, steps, n - 1);
    StepMoves(trace[n - 1], steps[n - 1]);
    if c < |trace[n - 1].client.calls| {
      CallsWereStarted(trace, steps, n - 1, c);
    } else {
      StartedNow(trace[n - 1], steps[n - 1], c);
    }
  }

  lemma StartedNow(s: Sys, step: Step, c: nat)
    requires Enabled(s, step) && |s.client.calls| <= c < |Next(s, step).client.calls|
    ensures c == |s.client.calls|
    ensures step == Local(C.Start(Next(s, step).client.calls[c].verb, Next(s, step).client.calls[c].params))
  {
  }

  /** If the server ever answered a call's request, that answer is what the call returns. */
  lemma AnsweredCallReturnsAnswer(trace: seq<Sys>, steps: seq<Step>, n: nat, c: nat, k: nat)
    requires IsRun(trace, steps) && n < |trace| && c < |trace[n].client.calls|
    requires C.Pcs(trace[n].client, c).Finished? && C.Pcs(trace[n].client, c).outcome.Got?
    requires k < |trace[n].responses| && k < |trace[n].requests|
    requires trace[n].requests[k].id == C.Pcs(trace[n].client, c).id
    ensures C.Pcs(trace[n].client, c).outcome.msg == trace[n].responses[k]
  {
    InvHolds(trace, steps, n);
    var s, pc := trace[n], C.Pcs(trace[n].client, c);
    assert C.CallOk(s.client, c) && AnswerAt(s, k);
    assert pc.outcome.msg in s.client.table.channels[pc.id].sent;
  }

  /** And if it did not, the connection has ended, and the call returns the message failAll made up for it. */
  lemma UnansweredCallIsToldSo(trace: seq<Sys>, steps: seq<Step>, n: nat, c: nat)
    requires IsRun(trace, steps) && n < |trace| && c < |trace[n].client.calls|
    requires C.Pcs(trace[n].client, c).Finished? && C.Pcs(trace[n].client, c).outcome.Got?
    requires |trace[n].responses| <= |trace[n].requests|
    requires forall k :: 0 <= k < |trace[n].responses| ==> trace[n].requests[k].id != C.Pcs(trace[n].client, c).id
    ensures
      var s, pc := trace[n], C.Pcs(trace[n].client, c);
      s.client.table.closed && SaysClosed(pc.outcome.msg, pc.id, s.client.table.closeErr)
  {
    InvHolds(trace, steps, n);
    var s, pc := trace[n], C.Pcs(trace[n].client, c);
    assert C.CallOk(s.client, c) && C.IdOk(s.client, pc.id);
    assert pc.outcome.msg in s.client.table.channels[pc.id].sent;
  }

  /** Correlation over every interleaving: the message a call returns was produced by the handler for the one request
      that call put on the wire; only a call the server never answered gets failAll's connection-closed message. */
  lemma AnswerBelongsToCall(trace: seq<Sys>, steps: seq<Step>, n: nat, c: nat) returns (k: nat, i: nat)
    requires IsRun(trace, steps) && n < |trace| && c < |trace[n].client.calls|
    requires C.Pcs(trace[n].client, c).Finished? && C.Pcs(trace[n].client, c).outcome.Got?
    ensures
      var s, pc := trace[n], C.Pcs(trace[n].client, c);
      |s.responses| <= |s.requests| &&
      if exists j :: 0 <= j < |s.responses| && s.requests[j].id == pc.id then
        && k < |s.responses| && s.responses[k] == pc.outcome.msg
        && Carries(s.requests[k], pc.id, s.client.calls[c].verb, s.client.calls[c].params)
        && (forall j :: 0 <= j < |s.requests| && j != k ==> s.requests[j].id != pc.id)
        && i < n && Produced(trace, steps, i, k, pc.outcome.msg) && trace[i].requests[k] == s.requests[k]
      else
        s.client.table.closed && SaysClosed(pc.outcome.msg, pc.id, s.client.table.closeErr)
  {
    InvHolds(trace, steps, n);
    k, i := 0, 0;
    var s, pc := trace[n], C.Pcs(trace[n].client, c);
    assert C.CallOk(s.client, c);
    if j :| 0 <= j < |s.responses| && s.requests[j].id == pc.id {
      k := j;
      assert RequestAt(s, k);
      AnsweredCallReturnsAnswer(trace, steps, n, c, k);
      ResponsesAreProduced(trace, steps, n, k);
      i :| 0 <= i < n && Produced(trace, steps, i, k, pc.outcome.msg);
      PipesOnlyGrow(trace, steps, i, n);
    } else {
      UnansweredCallIsToldSo(trace, steps, n, c);
    }
  }

  /** In particular a call that returns without an error returns the handler's own answer to its own request. */
  lemma ResultsComeFromTheHandler(trace: seq<Sys>, steps: seq<Step>, n: nat, c: nat)
    requires IsRun(trace, steps) && n < |trace| && c < |trace[n].client.calls|
    requires C.Pcs(trace[n].client, c).Finished? && C.Pcs(trace[n].client, c).outcome.Got?
    requires C.Pcs(trace[n].client, c).outcome.msg.error == None
    ensures exists k: nat, i: nat :: i < n && Produced(trace, steps, i, k, C.Pcs(trace[n].client, c).outcome.msg)
                           && Carries(trace[i].requests[k], C.Pcs(trace[n].client, c).id,
                                      trace[n].client.calls[c].verb, trace[n].client.calls[c].params)
  {
    var k, i := AnswerBelongsToCall(trace, steps, n, c);
  }

  /** The server answers requests one for one, in wire order, under their IDs, and answers nothing after a shutdown. */
  lemma ServerAnswersInOrder(trace: seq<Sys>, steps: seq<Step>, n: nat)
    requires IsRun(trace, steps) && n < |trace|
    ensures |trace[n].responses| <= |trace[n].requests|
    ensures forall k :: 0 <= k < |trace[n].responses| ==> trace[n].responses[k].id == trace[n].requests[k].id
    ensures forall k :: 0 <= k < |trace[n].responses| - 1 ==> trace[n].requests[k].verb != SHUTDOWN
    ensures forall k :: 0 <= k < |trace[n].responses| ==>
              trace[n].responses[k].result == None || trace[n].responses[k].error == None
  {
    InvHolds(trace, steps, n);
  }

  // Two callers that have both registered, in order.
  function TwoRegistered(): C.State {
    C.State(C.Table(false, "", 2, {1, 2}, map[1 := C.Channel([], 0), 2 := C.Channel([], 0)]),
            [C.Call("get", None, C.Registered(1)), C.Call("list", None, C.Registered(2))],
            C.Decoding, map[1 := 0, 2 := 1])
  }

  // --- with one handler behind the server ---

  /** Every served request is dispatched to the handler, whose state is threaded through `hs`. */
  ghost predicate ServedBy<S(!new)>(h: P.Handler<S>, hs: seq<S>, trace: seq<Sys>, steps: seq<Step>) {
    && |hs| == |trace| == |steps| + 1
    && forall i :: 0 <= i < |steps| ==> HandlerStep(h, hs[i], hs[i + 1], trace[i], steps[i])
  }

  ghost predicate HandlerStep<S(!new)>(h: P.Handler<S>, before: S, after: S, s: Sys, step: Step) {
    if step.Serve? then |s.responses| < |s.requests| &&
      (after, step.ret) == P.Dispatch(h, before, s.requests[|s.responses|])
    else after == before
  }

  /** The server of a session has written what `init` owes to the requests so far, and stands where they have put it. */
  ghost predicate InStep<S(!new)>(h: P.Handler<S>, init: S, st: S, s: Sys) {
    && P.Answers(h, init, s.requests, s.responses)
    && st == P.After(h, init, s.requests[..|s.responses|])
  }

  lemma AnswersPrefix<S(!new)>(h: P.Handler<S>, init: S, input: seq<Message>, more: seq<Message>, out: seq<Message>)
    requires P.Answers(h, init, input, out) && input <= more
    ensures P.Answers(h, init, more, out)
  {
    forall k | 0 <= k < |out| ensures out[k] == P.Owed(h, init, more[..k + 1]) {
      assert more[..k + 1] == input[..k + 1];
    }
  }

  lemma ServeStaysInStep<S(!new)>(h: P.Handler<S>, init: S, st: S, after: S, s: Sys, step: Step)
    requires ServerOk(s) && Enabled(s, step) && InStep(h, init, st, s) && HandlerStep(h, st, after, s, step)
    ensures InStep(h, init, after, Next(s, step))
  {
    if step.Serve? {
      P.RespondNext(h, init, st, s.requests, s.responses);
    } else if step.ServeShutdown? {
      P.AcknowledgeNext(h, init, s.requests, s.responses);
    } else {
      PipesGrow(s, step);
      OtherStepsStayInStep(h, init, st, s, Next(s, step));
    }
  }

  lemma OtherStepsStayInStep<S(!new)>(h: P.Handler<S>, init: S, st: S, s: Sys, t: Sys)
    requires InStep(h, init, st, s) && s.requests <= t.requests && t.responses == s.responses
    ensures InStep(h, init, st, t)
  {
    AnswersPrefix(h, init, s.requests, t.requests, s.responses);
    assert t.requests[..|s.responses|] == s.requests[..|s.responses|];
  }

  /** In every state of a run whose server dispatches to one handler, the responses written are exactly the ones that
      `ServeConn` owes to the requests on the wire. */
  lemma {:induction false} SessionServesAsServeConn<S(!new)>(h: P.Handler<S>, hs: seq<S>,
                                                             trace: seq<Sys>, steps: seq<Step>,
                                                             n: nat)
    requires IsRun(trace, steps) && ServedBy(h, hs, trace, steps) && n < |trace|
    ensures InStep(h, hs[0], hs[n], trace[n])
  {
    if n > 0 {
      SessionServesAsServeConn(h, hs, trace, steps, n - 1);
      InvHolds(trace, steps, n - 1);
      assert HandlerStep(h, hs[n - 1], hs[n - 1 + 1], trace[n - 1], steps[n - 1]);
      ServeStaysInStep(h, hs[0], hs[n - 1], hs[n], trace[n - 1], steps[n - 1]);
    }
  }

  /** End to end: a call the server answered returns what the handler owes to that call's own request after the requests
      written before it, wherever in the wire order it came. */
  lemma CallsReturnWhatIsOwed<S(!new)>(h: P.Handler<S>, hs: seq<S>, trace: seq<Sys>, steps: seq<Step>, n: nat, c: nat)
    requires IsRun(trace, steps) && ServedBy(h, hs, trace, steps) && n < |trace| && c < |trace[n].client.calls|
    requires C.Pcs(trace[n].client, c).Finished? && C.Pcs(trace[n].client, c).outcome.Got?
    ensures
      var s, pc := trace[n], C.Pcs(trace[n].client, c);
      || (exists k :: 0 <= k < |s.responses| <= |s.requests| && P.RightAnswer(h, hs[0], s.requests, k, pc.outcome.msg)
            && Carries(s.requests[k], pc.id, s.client.calls[c].verb, s.client.calls[c].params))
      || (s.client.table.closed && SaysClosed(pc.outcome.msg, pc.id, s.client.table.closeErr)
            && forall k :: 0 <= k < |s.responses| ==> k < |s.requests| && s.requests[k].id != pc.id)
  {
    SessionServesAsServeConn(h, hs, trace, steps, n);
    P.AnswersAreRight(h, hs[0], trace[n].requests, trace[n].responses);
    var k, i := AnswerBelongsToCall(trace, steps, n, c);
  }

  // --- wire order ---

  lemma RunOn(trace: seq<Sys>, steps: seq<Step>, step: Step) returns (trace': seq<Sys>, steps': seq<Step>)
    requires IsRun(trace, steps) && Enabled(trace[|steps|], step)
    ensures IsRun(trace', steps') && |steps'| == |steps| + 1 && trace'[|steps'|] == Next(trace[|steps|], step)
  {
    trace', steps' := trace + [Next(trace[|steps|], step)], steps + [step];
  }

  function Started(calls: seq<C.Call>): Sys { INITIAL.(client := C.INITIAL.(calls := calls)) }

  function FirstRegistered(): Sys {
    INITIAL.(client := C.State(C.INITIAL_TABLE.Register(),
                               [C.Call("get", None, C.Registered(1)), C.Call("list", None, C.Begin)],
                               C.Decoding, map[1 := 0]))
  }

  lemma SecondRegisters(s: Sys)
    requires s == FirstRegistered()
    ensures Enabled(s, Local(C.Enter(1))) && Next(s, Local(C.Enter(1))) == INITIAL.(client := TwoRegistered())
  {
    var t := Next(s, Local(C.Enter(1)));
    assert t.client.calls == TwoRegistered().calls;
    assert t.client.table == TwoRegistered().table;
  }

  lemma TwoCallersCanRegister() returns (trace: seq<Sys>, steps: seq<Step>)
    ensures IsRun(trace, steps) && |steps| == 4
    ensures trace[4] == INITIAL.(client := TwoRegistered())
  {
    var get, list := C.Call("get", None, C.Begin), C.Call("list", None, C.Begin);
    trace, steps := [INITIAL], [];
    trace, steps := RunOn(trace, steps, Local(C.Start("get", None)));
    assert trace[1] == Started([get]);
    trace, steps := RunOn(trace, steps, Local(C.Start("list", None)));
    assert trace[2] == Started([get, list]);
    trace, steps := RunOn(trace, steps, Local(C.Enter(0)));
    assert trace[3] == FirstRegistered();
    SecondRegisters(trace[3]);
    trace, steps := RunOn(trace, steps, Local(C.Enter(1)));
  }

  /** Wire order need not be ID order: two callers can register in one order and write in the other. */
  lemma WireOrderNeedNotBeIdOrder()
    ensures exists trace: seq<Sys>, steps: seq<Step> :: IsRun(trace, steps) && |trace| == 7 && |trace[6].requests| == 2
              && trace[6].requests[0].id > trace[6].requests[1].id
  {
    var trace, steps := TwoCallersCanRegister();
    trace, steps := RunOn(trace, steps, SendRequest(1));
    trace, steps := RunOn(trace, steps, SendRequest(0));
    assert trace[6].requests == [Request(2, "list", None), Request(1, "get", None)];
  }

  // --- progress ---

  function Load(pc: C.Pc): nat {
    match pc
    case Begin => 4
    case Registered(_) => 3
    case Waiting(_) => 2
    case WriteFailed(_) => 1
    case Cancelled(_) => 1
    case Finished(_, _) => 0
  }

  function Work(calls: seq<C.Call>): nat {
    if calls == [] then 0 else Load(calls[0].pc) + Work(calls[1..])
  }

  function ReaderRank(r: C.Reader): nat {
    match r
    case Holding(_, _) => 4
    case Decoding => 3
    case Failing(_) => 2
    case Closing => 1
    case Exited => 0
  }

  /** Queued requests, queued responses, the live parties and the unfinished part of every call. */
  function Measure(s: Sys): int {
    4 * Work(s.client.calls)
    + 3 * (|s.requests| - |s.responses|)
    + 2 * (|s.responses| - s.read)
    + ReaderRank(s.client.reader)
    + (if s.serverLive then 1 else 0) + (if s.inputOpen then 1 else 0)
  }

  lemma {:induction false} WorkAt(calls: seq<C.Call>, c: nat, call: C.Call)
    requires c < |calls|
    ensures Work(calls[c := call]) == Work(calls) - Load(calls[c].pc) + Load(call.pc)
  {
    if c == 0 {
      assert calls[0 := call][1..] == calls[1..];
    } else {
      assert calls[c := call][1..] == calls[1..][c - 1 := call];
      WorkAt(calls[1..], c - 1, call);
    }
  }

  predicate MovesCaller(l: C.Step) {
    l.Enter? || l.Write? || l.WriteErr? || l.ForgetFailed? || l.Cancel? || l.ForgetCancelled? || l.TakeMessage?
  }

  lemma CallerDescends(s: C.State, l: C.Step)
    requires C.Enabled(s, l) && MovesCaller(l)
    ensures Work(C.Next(s, l).calls) < Work(s.calls)
    ensures C.Next(s, l).reader == s.reader
  {
    var t := C.Next(s, l);
    assert t.calls == s.calls[l.c := t.calls[l.c]];
    WorkAt(s.calls, l.c, t.calls[l.c]);
  }

  /** A new call. */
  predicate Arrives(step: Step) { step.Local? && step.step.Start? }

  /** Every step but the arrival of a new call brings the session closer to rest. */
  lemma EveryStepDescends(s: Sys, step: Step)
    requires ServerOk(s) && Enabled(s, step) && !Arrives(step)
    ensures 0 <= Measure(Next(s, step)) < Measure(s)
  {
    ServerKept(s, step);
    match ClientStep(s, step)
    case Some(l) =>
      if MovesCaller(l) {
        CallerDescends(s.client, l);
      } else {
        assert C.Next(s.client, l).calls == s.client.calls;
      }
    case None =>
  }

  /** So a stretch of any run in which no new call arrives is at most as long as the measure it starts from. */
  lemma {:induction false} NoEndlessRun(trace: seq<Sys>, steps: seq<Step>, a: nat, b: nat)
    requires IsRun(trace, steps) && a <= b < |trace|
    requires forall i :: a <= i < b ==> !Arrives(steps[i])
    ensures b - a <= Measure(trace[a]) - Measure(trace[b])
    ensures 0 <= Measure(trace[b])
  {
    if a < b {
      NoEndlessRun(trace, steps, a, b - 1);
      StepDescends(trace, steps, b - 1);
    } else {
      MeasureIsNat(trace, steps, b);
    }
  }

  lemma MeasureIsNat(trace: seq<Sys>, steps: seq<Step>, n: nat)
    requires IsRun(trace, steps) && n < |trace|
    ensures 0 <= Measure(trace[n])
  {
    InvHolds(trace, steps, n);
  }

  lemma StepDescends(trace: seq<Sys>, steps: seq<Step>, n: nat)
    requires IsRun(trace, steps) && n < |steps| && !Arrives(steps[n])
    ensures 0 <= Measure(trace[n + 1]) < Measure(trace[n])
  {
    InvHolds(trace, steps, n);
    EveryStepDescends(trace[n], steps[n]);
  }

  /** Steps nobody can put off: handlers return, the reader and the callers go on, a write to a closed pipe fails.
      New calls, cancellation, Close, crashes and other write errors may happen or not. */
  predicate Obliged(s: Sys, step: Step) {
    && Enabled(s, step)
    && !step.Crash? && !step.CloseInput?
    && !(step.Local? && (step.step.Start? || step.step.Cancel? || (step.step.WriteErr? && s.inputOpen)))
  }

  lemma RestingParties(s: Sys)
    requires Inv(s) && forall step :: !Obliged(s, step)
    ensures s.client.reader.Decoding? || s.client.reader.Exited?
    ensures s.client.reader.Decoding? ==> s.inputOpen && s.serverLive && s.read == |s.responses| == |s.requests|
  {
    C.SendsAreFree(s.client);
    assert !Obliged(s, Local(C.Deliver)) && !Obliged(s, Local(C.FailAllPending)) && !Obliged(s, Local(C.CloseDone));
    assert !Obliged(s, ReadResponse) && !Obliged(s, ReadEnd(C.Eof));
    assert !Obliged(s, Serve(Value(None))) && !Obliged(s, ServeShutdown) && !Obliged(s, ServeEof);
  }

  lemma RestingCall(s: Sys, c: nat)
    requires Inv(s) && c < |s.client.calls| && forall step :: !Obliged(s, step)
    ensures !C.Pcs(s.client, c).Begin? && !C.Pcs(s.client, c).Registered?
    ensures !C.Pcs(s.client, c).WriteFailed? && !C.Pcs(s.client, c).Cancelled?
    ensures C.Pcs(s.client, c).Waiting? ==> !C.Enabled(s.client, C.TakeMessage(c))
  {
    assert !Obliged(s, Local(C.Enter(c)));
    assert !Obliged(s, SendRequest(c)) && !Obliged(s, Local(C.WriteErr(c)));
    assert !Obliged(s, Local(C.ForgetFailed(c))) && !Obliged(s, Local(C.ForgetCancelled(c)));
    assert !Obliged(s, Local(C.TakeMessage(c)));
  }

  /** At rest every call has returned; after Close the reader has also closed `done`. */
  lemma AtRestEveryCallHasReturned(trace: seq<Sys>, steps: seq<Step>, n: nat)
    requires IsRun(trace, steps) && n < |trace|
    requires forall step :: !Obliged(trace[n], step)
    ensures forall c :: 0 <= c < |trace[n].client.calls| ==> C.Pcs(trace[n].client, c).Finished?
    ensures !trace[n].inputOpen ==> trace[n].client.reader.Exited?
    ensures !trace[n].client.reader.Exited? ==> trace[n].read == |trace[n].responses| == |trace[n].requests|
  {
    InvHolds(trace, steps, n);
    var s := trace[n];
    RestingParties(s);
    forall c | 0 <= c < |s.client.calls| ensures C.Pcs(s.client, c).Finished? {
      RestingCall(s, c);
      assert C.CallOk(s.client, c);
    }
  }
}

// The dispatch loop of the one-shot plugin protocol: a plugin may answer with
// requests for other plugins, and is called again with their results until it
// stops asking. Replies of plugins are given by the caller.

module Dispatcher {
  import opened Wrappers

  datatype Error = Error(code: string, message: string)
  const INTERNAL := "INTERNAL"
  const STATUS_SUCCESS := "success"
  const STATUS_ERROR := "error"

  datatype Resource = Resource(kind: string, name: string, body: string)

  datatype WaitCondition = WaitCondition(field: string, value: string)

  datatype DispatchRequest = DispatchRequest(
    id: string, provider: string, action: string, resourceType: string, resourceName: string,
    manifest: Option<Resource>, waitFor: Option<WaitCondition>)

  datatype DispatchResult = DispatchResult(id: string, status: string, resource: Option<Resource>, error: Option<Error>)

  datatype StateUpdate = StateUpdate(operation: string, provider: string, name: string, state: Option<string>)

  datatype Response = Response(
    status: string, resource: Option<Resource>, resources: seq<Resource>, error: Option<Error>,
    stateUpdate: Option<StateUpdate>, dispatchRequests: seq<DispatchRequest>, continuation: Option<string>)

  type Reply<+T> = Result<T, string>

  /** What one dispatched request meets: the target plugin and its configuration, its reply,
      the wait, the closing read. */
  datatype Encounter = Encounter(
    plugin: Reply<bool>,          // FindPlugin: an error, or whether the plugin exists
    config: Reply<()>,
    reply: Reply<Response>,
    wait: Reply<()>,
    finalGet: Reply<Response>)

  function InternalError(id: string, message: string): DispatchResult {
    DispatchResult(id, STATUS_ERROR, None, Some(Error(INTERNAL, message)))
  }

  /** The dispatch got as far as a reply from its plugin. */
  predicate Reached(e: Encounter) { e.plugin == Ok(true) && e.config.Ok? && e.reply.Ok? }

  /** There is a resource to wait for: one the request names, or its manifest does. */
  predicate CanWait(req: DispatchRequest) {
    req.resourceName != "" || (req.manifest.Some? && req.manifest.value.name != "")
  }

  /** The resource a reply shows: its single resource, or the first of its list. */
  function Shown(resp: Response): Option<Resource> {
    if resp.resource.Some? then resp.resource
    else if resp.resources != [] then Some(resp.resources[0]) else None
  }

  /** A failed result says why, under the internal error code or in the plugin's own words, and shows nothing else. */
  predicate SaysInternal(r: DispatchResult) {
    r.status == "error" && r.resource == None && r.error.Some? && r.error.value.code == "INTERNAL"
  }

  /** What the dispatching plugin is owed for a request, given what the request met. */
  ghost predicate ResultFor(req: DispatchRequest, e: Encounter, r: DispatchResult) {
    && r.id == req.id
    && (!Reached(e) ==> SaysInternal(r))
    && (Reached(e) ==>
          var resp := e.reply.value;
          && (resp.status == "error" ==> r == DispatchResult(req.id, "error", None, resp.error))
          && (resp.status != "error" && (resp.status != "success" || req.waitFor.None?) ==>
                r == DispatchResult(req.id, resp.status, Shown(resp), None))
          && (resp.status == "success" && req.waitFor.Some? ==>
                if !CanWait(req) || e.wait.Err? then SaysInternal(r)
                else
                  && r.status == "success" && r.error == None
                  && r.resource == if e.finalGet.Ok? && e.finalGet.value.resource.Some?
                                   then e.finalGet.value.resource else Shown(resp)))
  }

  /** One dispatched request. */
  method ExecuteDispatch(req: DispatchRequest, e: Encounter) returns (r: Reply<DispatchResult>)
    ensures r.Ok? <==> Reached(e)
    ensures r.Ok? ==> ResultFor(req, e, r.value)
  {
    if e.plugin.Err? {
      return Err(e.plugin.error);
    }
    if !e.plugin.value {
      return Err("plugin not found");
    }
    if e.config.Err? {
      return Err("failed to get provider config");
    }
    if e.reply.Err? {
      return Err(e.reply.error);
    }
    var resp := e.reply.value;
    var result := DispatchResult(req.id, resp.status, None, None);
    if resp.status == STATUS_ERROR {
      result := result.(error := resp.error);
    } else if resp.resource.Some? {
      result := result.(resource := resp.resource);
    } else if |resp.resources| > 0 {
      result := result.(resource := Some(resp.resources[0]));
    }
    if req.waitFor.Some? && result.status == STATUS_SUCCESS {
      var name := req.resourceName;
      if name == "" && req.manifest.Some? {
        name := req.manifest.value.name;
      }
      if name == "" {
        return Ok(InternalError(req.id, "cannot wait for condition: no resource name"));
      }
      if e.wait.Err? {
        return Ok(InternalError(req.id, "wait condition failed"));
      }
      if e.finalGet.Ok? && e.finalGet.value.resource.Some? {
        result := result.(resource := e.finalGet.value.resource);
      }
    }
    return Ok(result);
  }

  /** Every result answers the request at its index. */
  ghost predicate Answers(requests: seq<DispatchRequest>, met: nat -> Encounter, results: seq<DispatchResult>) {
    |results| == |requests| && forall i :: 0 <= i < |requests| ==> ResultFor(requests[i], met(i), results[i])
  }

  /** executeDispatches fills a fixed table by index; a dispatch that fails still answers its request. */
  method ExecuteDispatches(requests: seq<DispatchRequest>, met: nat -> Encounter) returns (results: seq<DispatchResult>)
    ensures Answers(requests, met, results)
  {
    var table := new DispatchResult[|requests|](_ => InternalError("", ""));
    for i := 0 to |requests|
      invariant forall j :: 0 <= j < i ==> ResultFor(requests[j], met(j), table[j])
    {
      var r := ExecuteDispatch(requests[i], met(i));
      table[i] := match r case Ok(result) => result case Err(why) => InternalError(requests[i].id, why);
    }
    return table[..];
  }

  /** The request object, changed in place before every further round. */
  class Request {
    var dispatchResults: seq<DispatchResult>
    var continuationToken: string

    constructor ()
      ensures dispatchResults == [] && continuationToken == ""
    {
      dispatchResults, continuationToken := [], "";
    }
  }

  /** The request as it went out: what the plugin reads in one round. */
  datatype Sent = Sent(results: seq<DispatchResult>, token: string)

  predicate AsksAgain(r: Reply<Response>) { r.Ok? && r.value.dispatchRequests != [] && r.value.continuation.Some? }

  /** The request of one round takes up the reply of the round before. */
  ghost predicate Follows(r: Reply<Response>, met: nat -> Encounter, s: Sent) {
    && AsksAgain(r)
    && Answers(r.value.dispatchRequests, met, s.results)
    && s.token == r.value.continuation.value
  }

  /** Each further request answers the dispatch requests of the reply before it and carries its token. */
  ghost predicate Conversation(replies: seq<Reply<Response>>, met: nat -> nat -> Encounter, sent: seq<Sent>) {
    && |sent| <= |replies|
    && forall k :: 0 < k < |sent| ==> Follows(replies[k - 1], met(k - 1), sent[k])
  }

  /** Spelled out: the reply asked for dispatches and gave a token, and the request brings as many results and it. */
  ghost predicate TakesUp(r: Reply<Response>, s: Sent) {
    && r.Ok? && r.value.dispatchRequests != []
    && r.value.continuation == Some(s.token) && |s.results| == |r.value.dispatchRequests|
  }

  lemma ConversationReads(replies: seq<Reply<Response>>, met: nat -> nat -> Encounter, sent: seq<Sent>)
    requires Conversation(replies, met, sent)
    ensures forall k :: 0 < k < |sent| ==> TakesUp(replies[k - 1], sent[k])
  {
    forall k | 0 < k < |sent| ensures TakesUp(replies[k - 1], sent[k]) {
      assert Follows(replies[k - 1], met(k - 1), sent[k]);
    }
  }

  /** How a run stands after the given replies: still owed a reply, failed, or finished with a response. */
  datatype Outcome = Unfinished | Failed | Finished(resp: Response)

  /** What the store can act on: it files states under a provider and a name. */
  predicate Supported(u: StateUpdate) {
    (u.operation == "save" && u.state.Some? && u.provider != "" && u.name != "") || u.operation == "delete"
  }

  type Store = map<(string, string), string>

  /** How the disk takes a request: it works, refuses, or breaks off with part of a save written. */
  datatype Disk = Works | Refuses | Tears(part: string)

  /** The store after an update: an unsupported one changes nothing, and none touches another name. */
  function Updated(saved: Store, u: StateUpdate, disk: Disk): (after: Store)
    ensures forall k :: k != (u.provider, u.name) ==> (k in after <==> k in saved)
    ensures forall k :: k != (u.provider, u.name) && k in after ==> after[k] == saved[k]
    ensures Supported(u) && disk.Works? ==> ((u.provider, u.name) in after <==> u.operation == "save")
    ensures Supported(u) && disk.Works? && u.operation == "save" ==> after[(u.provider, u.name)] == u.state.value
    ensures !Supported(u) || disk.Refuses? ==> after == saved
  {
    if !Supported(u) || disk.Refuses? then saved
    else if u.operation == "save" then
      saved[(u.provider, u.name) := if disk.Works? then u.state.value else disk.part]
    else if disk.Works? then saved - {(u.provider, u.name)} else saved
  }

  class StateStore {
    var saved: Store

    constructor ()
      ensures saved == map[]
    {
      saved := map[];
    }

    method Handle(u: StateUpdate, disk: Disk) returns (ok: bool)
      modifies this
      ensures ok <==> Supported(u) && disk.Works?
      ensures saved == Updated(old(saved), u, disk)
    {
      if u.operation == "save" {
        if u.state.None? || u.name == "" || u.provider == "" || disk.Refuses? {
          return false;
        }
        saved := saved[(u.provider, u.name) := if disk.Tears? then disk.part else u.state.value];
        return disk.Works?;
      }
      if u.operation == "delete" {
        if disk.Works? {
          saved := saved - {(u.provider, u.name)};
        }
        return disk.Works?;
      }
      return false;
    }
  }

  /** The loop, over the replies the plugin gives in order; a run may want more replies than `replies` holds.
      `plugin` says whether the plugin is found. */
  method ExecuteWithDispatch(plugin: Reply<bool>, req: Request, store: StateStore, disk: Disk,
                             replies: seq<Reply<Response>>, met: nat -> nat -> Encounter)
    returns (outcome: Outcome, sent: seq<Sent>, updates: seq<StateUpdate>)
    modifies req, store
    ensures Conversation(replies, met, sent)
    ensures sent != [] ==> sent[0] == Sent(old(req.dispatchResults), old(req.continuationToken))
    ensures sent == [] <==> replies == [] || plugin != Ok(true)
    ensures plugin != Ok(true) ==> outcome.Failed?
    ensures outcome.Unfinished? <==>
              plugin == Ok(true) && |sent| == |replies| && (sent == [] || AsksAgain(replies[|sent| - 1]))
    ensures outcome.Failed? ==> plugin != Ok(true) || (sent != [] && replies[|sent| - 1].Err?)
    ensures outcome.Finished? ==> outcome.resp.dispatchRequests == [] || outcome.resp.continuation == None
    ensures outcome.Unfinished? && sent != [] ==>
              && replies[|sent| - 1].Ok? && replies[|sent| - 1].value.dispatchRequests != []
              && replies[|sent| - 1].value.continuation.Some?
    ensures forall k :: 0 < k < |sent| ==> TakesUp(replies[k - 1], sent[k])
    ensures outcome.Finished? ==> sent != [] && replies[|sent| - 1] == Ok(outcome.resp) && !AsksAgain(Ok(outcome.resp))
    ensures updates == if outcome.Finished? && outcome.resp.stateUpdate.Some?
                       then [outcome.resp.stateUpdate.value] else []
    ensures |updates| <= 1
    ensures store.saved == if updates == [] then old(store.saved) else Updated(old(store.saved), updates[0], disk)
  {
    sent, updates := [], [];
    if plugin.Err? || !plugin.value {
      return Failed, [], [];
    }
    while |sent| < |replies|
      invariant Conversation(replies, met, sent)
      invariant sent != [] ==> sent[0] == Sent(old(req.dispatchResults), old(req.continuationToken))
      invariant sent == [] ==> Sent(req.dispatchResults, req.continuationToken)
                               == Sent(old(req.dispatchResults), old(req.continuationToken))
      invariant sent != [] ==>
        Follows(replies[|sent| - 1], met(|sent| - 1), Sent(req.dispatchResults, req.continuationToken))
      invariant store.saved == old(store.saved)
      decreases |replies| - |sent|
    {
      sent := sent + [Sent(req.dispatchResults, req.continuationToken)];
      var reply := replies[|sent| - 1];
      if reply.Err? {
        ConversationReads(replies, met, sent);
        return Failed, sent, [];
      }
      var resp := reply.value;
      if !(|resp.dispatchRequests| > 0 && resp.continuation.Some?) {
        if resp.stateUpdate.Some? {
          var ok := store.Handle(resp.stateUpdate.value, disk);
          updates := [resp.stateUpdate.value];
        }
        ConversationReads(replies, met, sent);
        return Finished(resp), sent, updates;
      }
      var round := |sent| - 1;
      var results := ExecuteDispatches(resp.dispatchRequests, met(round));
      req.dispatchResults := results;
      req.continuationToken := resp.continuation.value;
    }
    ConversationReads(replies, met, sent);
    return Unfinished, sent, [];
  }

  /** A finished conversation is determined by its replies: it stops at the first one that does not ask again. */
  lemma StopsAtFirstFinalReply(replies: seq<Reply<Response>>, met: nat -> nat -> Encounter, sent: seq<Sent>, n: nat)
    requires Conversation(replies, met, sent) && sent != [] && !AsksAgain(replies[|sent| - 1])
    requires n < |replies| && !AsksAgain(replies[n]) && forall k :: 0 <= k < n ==> AsksAgain(replies[k])
    ensures |sent| == n + 1
  {
    if |sent| > n + 1 {
      RoundAsked(replies, met, sent, n + 1);
    }
  }

  lemma RoundAsked(replies: seq<Reply<Response>>, met: nat -> nat -> Encounter, sent: seq<Sent>, k: nat)
    requires Conversation(replies, met, sent) && 0 < k < |sent|
    ensures AsksAgain(replies[k - 1])
  {
    assert Follows(replies[k - 1], met(k - 1), sent[k]);
  }
}

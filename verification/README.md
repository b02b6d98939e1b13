# openctl: verified models of its protocol, planner and providers

openctl applies declarative resources through provider plugins. This project
models the parts of it where correctness spans many steps or many calls, and
proves what those parts promise for every input, every run and every
interleaving.

| files | part of openctl |
|---|---|
| `Wrappers` | values that may be absent and operations that may fail |
| `Wire`, `PluginClient`, `PluginServer`, `PluginSession` | the v2 plugin protocol: many callers sharing one pipe, one reader, a sequential server, and the two ends joined by FIFO pipes |
| `DependencyGraph`, `Planner`, `BatchPlan`, `PlanProperties` | the batch planner: graph theory, the level-by-level sort with in-degree counters, `Build`, and what any plan promises |
| `Ingress`, `TunnelProvider` | the ingress list of a tunnel, shared by many routes |
| `Text`, `Timestamps`, `Sessions` | the session table, whose lookup compares times and whose sweep compares texts |
| `DnsRecord` | convergence of one DNS record against a zone that others change |
| `Dispatcher` | the dispatch and continuation loop of the one-shot protocol |
| `ManifestStream` | printing and splitting multi-document manifests |
| `MigrationExport` | the all-or-nothing export file |

`dafny verify dfyconfig.toml` checks all of it.

## How the source is represented

* The client is a transition system. One step is one section of the source that
  no other goroutine can see the middle of: a critical section of `mu`, a write
  under `writeMu`, or one channel operation. The reader removes an entry and
  sends on its channel in two different steps, and a caller registers and
  writes in two different steps, as in the source. The class `PluginClient.Client`
  holds the same fields and its methods are those critical sections.
* Map iteration order is an arbitrary choice wherever the source ranges over a
  map (`TopoWaves`, `FailAll`).
* Requests to Cloudflare succeed or fail as the caller of the model says. A DNS
  request can also be carried out with its answer lost.
* Time is civil fields, year to second, plus nanoseconds. Timestamp syntax is
  that of section 5.6 of RFC 3339, and section 5.1 is the one that limits when
  timestamps may be compared as strings.

## Where the code and its documentation differ

The model follows the code in each case.

* `internal/plan/plan.go:28-30` calls `Node.Deps` de-duplicated. The code
  de-duplicates by identity (lines 88-92), so in a plan two dependencies that
  differ only in apiVersion give the same label twice:
  `PlanProperties.OneLabelTwice`. A planned node's labels are free of repeats
  exactly when no two resources it waits for have the same kind and name, or
  kinds and names in which a slash moves from one to the other:
  `DepLabelsRepeatIff`.
* `internal/plan/plan.go:18-23` says the key is the full triple. It is, exactly
  when none of the three parts contains `|`: `KeyIdentifiesTriple`.
* `plugins/cloudflare/tunnelroute.go:39-43` promises that other routes are not
  disturbed. A hostless rule other than the standard catch-all is dropped, so a
  host answered by one gets another answer: `CustomCatchAllIsLost`, and exactly
  when in `OtherHostUnchangedIff`. A test comment says an upsert replaces in
  place (`plugins/cloudflare/tunnelroute_test.go:55`); the rule moves to the end.
* `plugins/cloudflare/tunnelroute.go:168-170` returns success when the tunnel is
  gone. That branch is never reached, because the read maps a missing object to
  an empty list; the closing write then fails and its error is returned, as the
  contract of `TunnelProvider.Account.DeleteTunnelRoute` says and
  `TunnelProvider.DeleteAfterTunnelIsGone` shows.
* `internal/controller/auth/sessions.go:153-154` says the sweep removes sessions
  past their expiry. Within the second of the expiry it can remove a live one or
  keep an expired one: `SweepErrsIff` says exactly when.
* `plugins/cloudflare/dns.go:85-87` promises convergence. It holds, but an apply
  that reaches its create and loses the answer leaves a record that no operation
  of the provider changes or deletes (`DnsRecord.LostCreateLeavesTwo`,
  `OrphanOutlivesProvider`). The state names every live record of the resource
  exactly when each such record has since been removed by somebody else:
  `OneLiveRecordIff`.

## Model

| member | source | states |
|---|---|---|
| PluginClient.InvStep | pkg/pluginproto/client.go:78-173 | every step of a caller, the reader or failAll keeps the invariant: an ID's answer is in at most one of three places, a live call's answer in exactly one, and a returned message was the only one its channel ever held |
| PluginClient.InvHolds | pkg/pluginproto/client.go:44-53 | the invariant holds in every state of every run from a new client, whatever bytes the plugin sends |
| PluginClient.WaitingHasExactlyOnePlace | pkg/pluginproto/client.go:87-96 | a caller in its select has its ID in `pending`, or its channel in the reader's hands, or one message buffered, and never two of these |
| PluginClient.AtMostOneMessagePerChannel | pkg/pluginproto/client.go:139-140 | over its whole life a call's channel is sent at most one message, with the call's own ID, even when the plugin repeats or invents IDs |
| PluginClient.SendsNeverBlock | pkg/pluginproto/client.go:93-96 | neither the reader's send nor failAll's sends under the lock ever find the slot taken: the channel of an expected or held answer has nothing in it |
| PluginClient.NobodyWaitsForever | pkg/pluginproto/client.go:75-77 | once failAll has run, `pending` is empty, every waiting caller has a message to take, and a new caller is turned away with the recorded error |
| PluginClient.PendingEntriesHaveLiveOwners | pkg/pluginproto/client.go:143-155 | the table never leaks: every entry belongs to a call that has not returned |
| PluginClient.CallsWereStarted | pkg/pluginproto/client.go:118-129 | every call has the method and params its caller started it with |
| PluginClient.OutcomesTell | pkg/pluginproto/client.go:143-165 | over any run, a call ends with a write error, its context's error or a message exactly when its write failed, it was cancelled in its select, or it took that message |
| PluginClient.GivingUpIsAlwaysPossible | pkg/pluginproto/client.go:150-155 | a waiting caller can always give up; it is then gone from the table and returns its context's error |
| PluginClient.StepHasEffect | pkg/pluginproto/client.go:131-166 | the frame of a step: IDs keep their owners, entries are never put back, and nothing is delivered but what the reader held or failAll made up |
| PluginClient.Client.constructor | pkg/pluginproto/client.go:44-53 | a new client has an empty table, no IDs used and is open |
| PluginClient.Client.Register | pkg/pluginproto/client.go:131-141 | a closed client answers with its recorded error and is unchanged; an open one hands out the next ID with an empty channel that is expected |
| PluginClient.Client.Forget | pkg/pluginproto/client.go:144-146 | a caller that gives up removes its entry and nothing else |
| PluginClient.Client.Claim | pkg/pluginproto/client.go:87-92 | the reader learns whether the ID is expected, and takes the entry away |
| PluginClient.Client.FailAll | pkg/pluginproto/client.go:101-116 | in any map order, each expected channel gets one message with its own ID and the recorded error under the internal code, the table is emptied, and the end of the stream is recorded as a closed connection; a second call changes nothing |
| PluginServer.ServeConn | pkg/pluginproto/server.go:98-127 | responses are exactly what is owed to the requests, in order and one for one, each answering its request given what those before it made of the handler, up to the first shutdown; each way of ending says what was left unanswered and why |
| PluginServer.OwedIsRight | pkg/pluginproto/server.go:129-206 | field by field: a shutdown is acknowledged; an unknown method, or params that do not decode, give an invalid error with the reason and do not reach the handler; otherwise the handler is run on the request's own params (none for a handshake), and its value's text, its structured error, its plain error or a failed encoding under the internal code is the response |
| PluginServer.AnswerShape | pkg/pluginproto/server.go:112-122 | a response has its request's ID and never both a result and an error; a shutdown is acknowledged and is the last; unknown methods are rejected as invalid; configure and delete return no result |
| PluginSession.InvStep | pkg/pluginproto/server.go:98-127 | with client, server and both pipes joined, every step keeps: requests on the wire are what their IDs' owners asked, no ID is written twice, and everything delivered was read off the wire or made by failAll |
| PluginSession.InvHolds | pkg/pluginproto/client.go:131-173 | that invariant holds in every state of every run |
| PluginSession.WireCarriesTheCall | pkg/pluginproto/client.go:143-143 | every request on the wire has the ID of one call, the method and params with which that call was started, and nothing of a response |
| PluginSession.AnswerBelongsToCall | pkg/pluginproto/client.go:118-167 | a call that returns a message returns, if the server ever answered its request, exactly that response, which the handler produced at an earlier step for the one request this call put on the wire; if not, the connection has ended and the message says so |
| PluginSession.AnsweredCallReturnsAnswer | pkg/pluginproto/client.go:87-96 | an answer is never lost: a call whose request was answered returns that response and nothing else |
| PluginSession.UnansweredCallIsToldSo | pkg/pluginproto/client.go:106-114 | a call that returns a message without its request having been answered returns the connection-closed error of a connection that has ended |
| PluginSession.SessionServesAsServeConn | pkg/pluginproto/server.go:98-127 | in every state of a run whose server dispatches to one handler, threading its state, the responses on the wire are exactly those owed to the requests, as for ServeConn |
| PluginSession.CallsReturnWhatIsOwed | pkg/pluginproto/client.go:131-173 | end to end: a call returns what the handler owes to this call's own request after the requests written before it, or was never answered and is told the connection closed |
| PluginSession.ResultsComeFromTheHandler | pkg/pluginproto/client.go:156-165 | a call that returns no error returns the handler's answer to its own request |
| PluginSession.ResponsesAreProduced | pkg/pluginproto/server.go:111-122 | each response was produced at an earlier step for the request at the same wire position |
| PluginSession.ServerAnswersInOrder | pkg/pluginproto/server.go:84-87 | responses follow requests in wire order under the same IDs, none follows a shutdown, none has both result and error |
| PluginSession.WireOrderNeedNotBeIdOrder | pkg/pluginproto/client.go:137-143 | a run exists in which the call with the larger ID is first on the wire, so correlation cannot rest on order |
| PluginSession.EveryStepDescends | pkg/pluginproto/client.go:278-295 | a measure over queued requests, queued responses, live parties and unfinished calls falls on every step except the arrival of a new call |
| PluginSession.NoEndlessRun | pkg/pluginproto/client.go:278-295 | a stretch of any run in which no call arrives has at most as many steps as the measure loses over it |
| PluginSession.AtRestEveryCallHasReturned | pkg/pluginproto/client.go:287-287 | a reachable state with nothing left to do has every call returned; once the request pipe is closed it also has `done` closed |
| DependencyGraph.WaveIsLongestChain | internal/plan/plan.go:41-47 | a node is in wave n exactly when its longest dependency chain has n edges |
| DependencyGraph.WavesAreEarliest | internal/plan/plan.go:112-114 | no assignment that puts dependencies strictly earlier puts any node before its wave |
| DependencyGraph.UnsettledReachesCycle | internal/plan/plan.go:114-115 | a node left over after as many waves as there are nodes has a chain of dependencies into a cycle (pigeonhole) |
| DependencyGraph.StuckIffReachesCycle | internal/plan/plan.go:157-165 | never being emitted, not being emitted within the node count, and leading to a cycle are the same |
| DependencyGraph.AllSettleIffAcyclic | internal/plan/plan.go:157-167 | every node is emitted exactly when no node is on a cycle |
| DependencyGraph.EmptyLevelIsFinal | internal/plan/plan.go:135-135 | once a wave comes out empty, what was emitted is everything that does not lead to a cycle |
| Planner.Edges | internal/plan/plan.go:117-124 | in any map order, the counters start at the number of dependencies and the reverse lists hold each edge once |
| Planner.KeysWhere | internal/plan/plan.go:126-131 | in any map order, the keys whose counter is zero (or is not) are listed once each |
| Planner.ReleaseNode | internal/plan/plan.go:146-151 | emitting one node lowers the counters of exactly its dependents by one, and queues those that reach zero |
| Planner.NextWave | internal/plan/plan.go:136-154 | one turn emits exactly the present level, sorted by label, and leaves counters and frontier standing at the next level |
| Planner.LastTurn | internal/plan/plan.go:134-157 | when the frontier is empty, `remaining` is the number of nodes that lead to a cycle, it is zero exactly when there is no cycle, and the positive counters are exactly those nodes' |
| Planner.TopoWaves | internal/plan/plan.go:116-168 | in any map order, waves are returned exactly when the graph is acyclic and are then the non-empty levels in order; otherwise the report names exactly the nodes that lead to a cycle |
| Text.SortBy | internal/plan/plan.go:140-140 | a permutation in label order |
| Text.SortedStringsAreUnique | internal/plan/plan.go:101-102 | sorting labels has one result, whichever algorithm is used |
| Text.LessIff | internal/plan/plan.go:101-102 | text order: one string is below another exactly when, at the first place they differ, it ends or has the smaller character |
| BatchPlan.Collect | internal/plan/plan.go:65-75 | nil manifests are skipped; either every identity is new, or the first resource whose identity is taken is reported |
| BatchPlan.Resolve | internal/plan/plan.go:78-100 | each in-set dependency is listed once, in order of first reference, without the resource itself; each external label once |
| BatchPlan.DepKeys | internal/plan/plan.go:83-92 | the dependency list has no repeats and holds exactly the referenced identities that are in the set and are not the resource's own |
| BatchPlan.Externals | internal/plan/plan.go:93-99 | the external list has no repeats and holds exactly the labels of references leaving the set |
| BatchPlan.ResolveAll | internal/plan/plan.go:77-103 | every node ends with its sorted labels, and the edge table is exactly the reference graph |
| BatchPlan.Build | internal/plan/plan.go:61-110 | a duplicate is reported exactly when identities repeat; a plan is returned exactly when they are distinct and the reference graph is acyclic; each result is right for the manifests |
| PlanProperties.EdgesAreReferences | internal/plan/plan.go:77-92 | one resource depends on another exactly when they differ and a reference of the one, written out as apiVersion, kind and name, is the other's identity |
| PlanProperties.AcyclicIff | internal/plan/plan.go:112-115 | the graph is acyclic exactly when no resources refer to one another in a circle |
| PlanProperties.NodeReads | internal/plan/plan.go:26-34 | a planned node's external labels are kind/name of exactly the references that name no resource of the set, once each; its dependency labels are kind/name of the resources it waits for, one for each; both in text order |
| PlanProperties.WaveInLabelOrder | internal/plan/plan.go:140-140 | the nodes of a wave stand in the text order of kind/name |
| PlanProperties.DuplicateIsFirst | internal/plan/plan.go:69-72 | the duplicate reported is the first resource whose apiVersion, kind and name, written out, an earlier one has |
| PlanProperties.LeadsToCycleIff | internal/plan/plan.go:157-165 | a resource is left over exactly when references lead from it to a circle of references |
| PlanProperties.EveryResourceOnce | internal/plan/plan.go:41-56 | the waves partition the resources: each is in one wave at one position |
| PlanProperties.PlacedAtLevel | internal/plan/plan.go:136-139 | a wave holds only listed resources, at their own level |
| PlanProperties.DependenciesAppliedFirst | internal/plan/plan.go:43-45 | every dependency is in a strictly earlier wave |
| PlanProperties.WaveIsChainLength | internal/plan/plan.go:133-155 | a resource's wave is the length of its longest dependency chain |
| PlanProperties.FewestWaves | internal/plan/plan.go:133-155 | no schedule that respects the dependencies has fewer slots than the plan has waves |
| PlanProperties.PlansAgree | internal/plan/plan.go:117-151 | whatever order maps are visited in, two plans have the same waves as sets, and are equal when labels are distinct |
| PlanProperties.StuckReportIsExact | internal/plan/plan.go:157-165 | the report has kind/name of each resource from which references lead to a circle, one for each, no other, in text order |
| PlanProperties.StuckReportsAgree | internal/plan/plan.go:158-164 | the report does not depend on the order in which the counters are visited |
| PlanProperties.KindIsDetermined | internal/plan/plan.go:58-60 | which of the three results is right is decided by the manifests: repeated identity, cycle, or neither |
| PlanProperties.BuildIsDeterministic | internal/plan/plan.go:61-110 | with distinct labels, any two results right for the same manifests are equal |
| PlanProperties.SameLabelIff | internal/plan/plan.go:36-39 | two resources have one label exactly when they share kind and name, or one kind continues the other past a slash that the other has in its name |
| PlanProperties.ConfusableWithoutSlashIff | internal/plan/plan.go:36-39 | for kinds without a slash, exactly when they share kind and name |
| PlanProperties.DepLabelsRepeatIff | internal/plan/plan.go:28-30 | the `Deps` of a node in a plan are free of repeats exactly when no two different resources that its resource refers to have one label, as told from their kinds and names |
| PlanProperties.OneLabelTwice | internal/plan/plan.go:87-92 | any result right for two resources that differ only in apiVersion and one that refers to both is a plan in which the last one's `Deps` repeat a label |
| PlanProperties.KeyIdentifiesTriple | internal/plan/plan.go:18-23 | the key stands for one (apiVersion, kind, name) triple exactly when no part contains the separator |
| Ingress.MergeIngressRule | plugins/cloudflare/tunnelroute.go:44-60 | the other hosts' rules in order, then a rule with exactly the host, the service and the path if any, then one `http_status:404` catch-all |
| Ingress.RemoveIngressRule | plugins/cloudflare/tunnelroute.go:65-76 | the other hosts' rules in order, then one `http_status:404` catch-all |
| Ingress.EditReads | plugins/cloudflare/tunnelroute.go:46-58 | field by field: after an upsert requests for the host meet a rule with exactly its host, service and path, after a removal the catch-all; no other rule names the host; every rule for another host is kept and none is added |
| Ingress.LookupIsFirst | plugins/cloudflare/tunnelroute.go:39-43 | a host is answered by the first rule, by position, that names it or names none |
| Ingress.RunClosedForm | plugins/cloudflare/tunnelroute.go:39-76 | after any run of edits: untouched hosts' rules in original order, then one rule per host last upserted in order of that edit, then one catch-all |
| Ingress.LastUpsertsAppend | plugins/cloudflare/tunnelroute.go:51-57 | one more edit takes its host out of the upserts and puts its own rule last |
| Ingress.LookupAfter | plugins/cloudflare/tunnelroute.go:46-58 | after an edit a host is answered by its own rule, else by its first rule from before, else by the catch-all |
| Ingress.OtherHostUnchangedIff | plugins/cloudflare/tunnelroute.go:42-43 | an edit leaves another host's answer alone exactly when a rule naming it answered before, or the standard catch-all did and no rule names it |
| Ingress.CustomCatchAllIsLost | plugins/cloudflare/tunnelroute.go:47-50 | an unrelated route's edit replaces a custom default rule |
| Ingress.EditsNormalize | plugins/cloudflare/tunnelroute.go:39-41 | after an edit every rule but the last names a host and the last is the catch-all |
| Ingress.NormalListsAreIsolated | plugins/cloudflare/tunnelroute.go:42-43 | on such a list no edit changes what any other host gets |
| Ingress.ListRefinesMap | plugins/cloudflare/tunnelroute.go:14-19 | any run of edits on the ordered list is the same run on a host-to-rule map, and requests are answered as the map answers |
| TunnelProvider.TunnelIngress | plugins/cloudflare/tunnel.go:179-210 | the declared rules in order, with a catch-all exactly when the last names a host; nothing when there are none |
| TunnelProvider.SpecIngress | plugins/cloudflare/tunnel.go:176-178 | a list made from a spec is empty exactly when no entry is meaningful, begins with the declared rules, and otherwise ends with a hostless rule |
| TunnelProvider.SpecRulesRead | plugins/cloudflare/tunnel.go:185-202 | the rules of a spec are those of exactly the entries with a service, in order, each with the entry's service, its host and path when it has them, and nothing else |
| TunnelProvider.Account.ApplyTunnelRoute | plugins/cloudflare/tunnelroute.go:102-129 | succeeds exactly when account, tunnel, host and service are given, the tunnel is found by name and no request fails; then the list sent answers the host with exactly the spec's host, service and path and ends with the catch-all, no other list changes, and the state names the tunnel; on failure nothing is changed |
| TunnelProvider.Account.GetTunnelRoute | plugins/cloudflare/tunnelroute.go:131-156 | ready exactly when the recorded tunnel's list can be read and names the recorded host; not found when it can be read and does not; the read's own error otherwise |
| TunnelProvider.Account.DeleteTunnelRoute | plugins/cloudflare/tunnelroute.go:158-174 | without recorded state nothing happens; otherwise succeeds exactly when both requests are accepted and the tunnel still exists, and then no rule of that list names the host, which ends with the catch-all, and no other list changes; each failure says which request failed |
| TunnelProvider.DeleteAfterTunnelIsGone | plugins/cloudflare/tunnelroute.go:166-173 | a route whose tunnel was deleted cannot be deleted although no request fails otherwise |
| TunnelProvider.Account.FindTunnelID | plugins/cloudflare/tunnel.go:162-174 | finds a tunnel with exactly that name whenever the account has one |
| TunnelProvider.Account.ReadTunnelIngress | plugins/cloudflare/tunnelroute.go:78-88 | a missing configuration, like a missing tunnel, reads as the empty list |
| TunnelProvider.Account.WriteTunnelIngress | plugins/cloudflare/tunnelroute.go:90-93 | replaces the configuration of an existing tunnel; otherwise fails and changes nothing |
| TunnelProvider.Account.PushTunnelSpec | plugins/cloudflare/tunnel.go:71-77 | sends nothing for a spec without meaningful rules; otherwise sends, entry by entry, the service, host and path each declares, then a catch-all exactly when the last names a host; over any run of the three writers every list sent is non-empty and ends hostless |
| Timestamps.TextOrder | internal/controller/auth/sessions.go:156-157 | the texts of two times compare as the times do, except that within one second the order is reversed when one written fraction is the beginning of the other |
| Timestamps.TextOrderIsWrongIff | internal/controller/auth/sessions.go:157-157 | comparing texts is wrong exactly for two times of one second whose written fractions are prefix-related |
| Timestamps.DifferentSecondsAgree | internal/controller/auth/sessions.go:157-157 | when whole seconds differ, text order is time order |
| Timestamps.BeforeIff | internal/controller/auth/sessions.go:127-127 | time order compares year, month, day, hour, minute, second and nanoseconds, in that order of weight |
| Timestamps.FormatLayout | internal/controller/auth/sessions.go:88-89 | the text of a time has each field, in digits, in its own columns with its separators, then the fraction's digits down to the last that is not zero |
| Timestamps.ParseInvertsFormat | internal/controller/auth/sessions.go:126-126 | every expiry the store writes is read back as the same time |
| Sessions.SessionStore.Create | internal/controller/auth/sessions.go:68-101 | a taken ID or token hash is a conflict and changes nothing; otherwise the one new row holds the hash, the creation time, an expiry after the given time to live or seven days, the user or "default", and the role or admin |
| Sessions.SessionStore.Lookup | internal/controller/auth/sessions.go:106-131 | nobody for an empty token; an error exactly when the table cannot be read; otherwise the one row with the token's hash, unless its written expiry is, field by field, earlier than now; an expiry that cannot be read does not expire |
| Sessions.SessionStore.Delete | internal/controller/auth/sessions.go:135-138 | removes that ID only; a missing one is no error |
| Sessions.SessionStore.DeleteByToken | internal/controller/auth/sessions.go:142-151 | row by row: exactly the rows with the token's hash go; none for an empty token |
| Sessions.SessionStore.GCExpired | internal/controller/auth/sessions.go:155-162 | removes exactly the rows whose expiry text is below the text of now, and counts them; for a written expiry that is, field by field, an expiry earlier than now, except within one second with prefix-related fractions, where the order is reversed |
| Sessions.SweepErrsIff | internal/controller/auth/sessions.go:153-157 | a sweep deletes a live session or keeps an expired one exactly when it falls in the second of the expiry and the written fractions are prefix-related |
| Sessions.SweptHalfASecondEarly | internal/controller/auth/sessions.go:153-157 | a session that expires half a second into a second is deleted by a sweep at its start |
| Sessions.StoresDifferBySweeps | internal/controller/auth/sessions.go:133-162 | over any run, a swept table is the unswept one without exactly the rows some sweep met and deleted |
| Sessions.LookupsDifferIff | internal/controller/auth/sessions.go:106-162 | over any run of creates, deletes and sweeps with a clock that does not go back, a lookup answers differently from a never-swept store exactly when an earlier sweep ran in the same second as the lookup and the expiry, before the expiry, with prefix-related fractions |
| Sessions.SweepsAreInvisibleOutsideTheSecond | internal/controller/auth/sessions.go:125-129 | a lookup outside the second of the session's expiry cannot tell whether the store was swept |
| DnsRecord.Provider.ApplyDNSRecord | plugins/cloudflare/dns.go:64-99 | rejected exactly when type, name or zone is missing; an unknown zone changes nothing; on success the returned state names a live record with the spec's type, name, content, comment, TTL, proxied flag and priority in the spec's zone, the old record or a new one; a live record whose update is answered keeps its ID; no other record of any zone changes |
| DnsRecord.Provider.GetDNSRecord | plugins/cloudflare/dns.go:101-118 | returns the live record the state names in the state's zone, or says it is missing |
| DnsRecord.Provider.DeleteDNSRecord | plugins/cloudflare/dns.go:139-152 | after success the record the state names is not in the state's zone, already gone being success; no other record of any zone changes; it fails only when a request goes unanswered |
| DnsRecord.InvNext | plugins/cloudflare/dns.go:79-98 | every operation, and everything others do to the zone, keeps: a live record this resource created is the one its state names or one whose create answer was lost |
| DnsRecord.InvHolds | plugins/cloudflare/dns.go:64-152 | that holds in every state of every run that starts without state, whatever others do to the zone |
| DnsRecord.AtMostOneOwnedRecord | plugins/cloudflare/dns.go:78-97 | over any run at most one answered record is live, and the state names it |
| DnsRecord.OrphansAreLostCreates | plugins/cloudflare/dns.go:80-94 | the records the state has lost track of are exactly those created by an apply that reached its create and lost the answer |
| DnsRecord.OrphansNeedLostCreates | plugins/cloudflare/dns.go:80-84 | when no create answer is lost there are none |
| DnsRecord.OrphanOutlivesProvider | plugins/cloudflare/dns.go:139-152 | such a record is gone only if somebody else removes it, and then stays gone; no apply, get or delete changes it |
| DnsRecord.OneLiveRecordIff | plugins/cloudflare/dns.go:78-97 | over any run, the state names every live record of the resource if and only if each record whose create answer was lost has since been removed by somebody else |
| DnsRecord.OthersAreUntouched | plugins/cloudflare/dns.go:86-88 | no operation changes a record other than the one its state names |
| DnsRecord.AnsweredApplySucceeds | plugins/cloudflare/dns.go:85-92 | an apply whose requests are answered succeeds whatever others did to the record |
| DnsRecord.LostCreateLeavesTwo | plugins/cloudflare/dns.go:80-84 | with one, two applies leave two live records |
| DnsRecord.ApplyConverges | plugins/cloudflare/dns.go:85-98 | after every successful apply of any run, the returned state names a live record of this resource whose body is the spec's |
| Dispatcher.ExecuteDispatch | internal/plugin/dispatcher.go:111-203 | an error exactly when the plugin, its configuration or its reply fails; otherwise the result is the plugin's error, the resource it showed, the resource as read after waiting, or an internal error when waiting was impossible or failed |
| Dispatcher.ExecuteDispatches | internal/plugin/dispatcher.go:86-108 | one result per request, at its index, under its ID, a failed dispatch giving an internal error |
| Dispatcher.ExecuteWithDispatch | internal/plugin/dispatcher.go:37-80 | fails without a call when the plugin is not found; each further call carries the results of the previous reply's requests, index by index, and its token; the loop stops exactly at the first reply that fails, dispatches nothing or gives no token; only the final reply's state update is applied, once |
| Dispatcher.StopsAtFirstFinalReply | internal/plugin/dispatcher.go:53-53 | the number of calls made is fixed by the replies |
| Dispatcher.StateStore.Handle | internal/plugin/dispatcher.go:310-351 | succeeds exactly when the operation is known and complete and the disk works; a rejected update changes nothing, and a failing one at most its own entry |
| Dispatcher.Updated | internal/plugin/dispatcher.go:343-346 | an update touches no other entry; one that works leaves its entry holding the saved state, or gone |
| ManifestStream.FormatYAML | internal/output/formatter.go:79-91 | the printed documents with a separator line between them; printing stops at the first resource that cannot be encoded, after the separator before it |
| ManifestStream.ParseMultiple | internal/manifest/manifest.go:54-72 | on success, exactly what the non-blank trimmed parts decode to, in order, each with apiVersion, kind and name; it fails only on a part that does not decode or misses one of them |
| ManifestStream.SplitReads | internal/manifest/manifest.go:55-55 | the parts contain no separator, and joined with it they are the text again |
| Text.TrimSpaceReads | internal/manifest/manifest.go:59-59 | trimming takes white space off both ends and leaves none there |
| ManifestStream.SplitJoined | internal/manifest/manifest.go:55-55 | splitting what the printer joined gives the documents back, up to newlines, when none contains or begins with the separator |
| ManifestStream.PrintThenParse | internal/manifest/manifest.go:53-72 | reading what was printed gives the original list, for any number of resources |
| MigrationExport.FileSystem.WriteMigrationExport | internal/cli/ctl_migration.go:207-242 | an existing file is never touched; a run that fails before the file is closed leaves the file system as it was exactly when nothing had been created or the cleanup's removal works; a committed file holds the encoding of a valid bundle and a newline; committed exactly when no step up to closing failed |
| MigrationExport.FileSystem.LoadMigrationBundle | internal/cli/ctl_migration.go:138-152 | unreadable, malformed and unacceptable files are told apart; otherwise the decoded bundle is returned |
| MigrationExport.Validate | internal/cli/ctl_migration.go:123-136 | accepts exactly version 1 with a desired resource that has apiVersion, kind, name, a spec that is not empty and no status, a controller, an identity, and a digest that decodes from hex to 32 bytes |
| MigrationExport.HexDecodeIff | internal/cli/ctl_migration.go:131-132 | a digest decodes exactly when it has an even number of hex digits, to half as many bytes |
| MigrationExport.ExportThenLoad | internal/cli/ctl_migration.go:138-242 | loading after an export that committed yields the exported bundle, even when the completion callback failed; after any other failed export of a new path there is no file |

## Left out

- JSON, YAML and protobuf encodings are functions with a stated law where one is needed (`ManifestStream.Faithful`, `MigrationExport.Faithful`); reading a result into the caller's type in `call` is not modelled.
- `refs.Collect` is not part of this model: a resource carries the sequence of references it would return.
- Process spawning and partial or blocking pipe writes: a write is one atomic append that succeeds or fails. IDs are unbounded, so the wrap-around of a 64-bit counter is not modelled.
- A select with both cases ready is a free choice between cancellation and the message; Go's fairness is not modelled.
- The sort routines of the Go library are one insertion sort; its contract is all that other proofs use.
- Error texts that only wrap another error are reduced to the error itself.
- `Dispatcher.ExecuteWithDispatch` is given a finite list of replies, so a plugin that asks for ever shows up as an unfinished run; polling, tickers and deadlines of a wait are reduced to its success or failure.
- `Dispatcher.StateStore` keeps one opaque value per provider and name; the copying of state fields is not modelled.
- Sessions.SessionStore.Create: calendar arithmetic (a time plus a number of nanoseconds) is an arbitrary function of the store, and the fresh token and ID are arguments; database failures of the writers are not modelled.
- Sessions.SessionStore.Lookup: the reading of absent columns is not modelled.
- TunnelProvider.Account.ApplyTunnelRoute: covers serial runs only; the source documents concurrent applies to one tunnel as last write wins.
- DnsRecord.InvHolds: runs stay in one zone; a spec that moves a record to another zone between applies is covered by `ApplyDNSRecord` alone. Observed status fields are not modelled.
- MigrationExport.FileSystem.WriteMigrationExport: what a leftover file holds when the cleanup's removal fails, which the source ignores, is not stated.
- Wildcard hostnames, path matching, and the creation, recreation and deletion of tunnels themselves.
- Table output, command-line wiring, role folding, the reconciler, schema registries and the generated protocol stubs: plumbing whose properties are seen in one reading.

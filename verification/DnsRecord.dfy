// Convergence of one DNS record in a fixed zone: create, update in place,
// recreate when it has gone, against a zone that others change too and whose
// replies can be lost.

module DnsRecord {
  import opened Wrappers

  datatype Spec = Spec(recordType: string, name: string, content: string, comment: string,
                       ttl: Option<int>, proxied: Option<bool>, priority: Option<int>, zoneId: string)

  datatype Body = Body(recordType: string, name: string, content: string, comment: string,
                       ttl: int, proxied: Option<bool>, priority: Option<int>)

  /** The opaque blob kept for the record; ID 0 stands for the empty record ID. */
  datatype State = State(recordId: nat, zoneId: string)
  const NO_STATE := State(0, "")

  datatype Failure = Missing | Invalid | Unanswered
  type Reply<+T> = Result<T, Failure>

  /** The fate of one request: answered, refused before it had any effect, or carried out with the answer lost. */
  datatype Fate = Answered | Refused | Lost

  /** The zone's records under server-assigned IDs that are never reused. */
  datatype Zone = Zone(records: map<nat, Body>, nextId: nat) {
    ghost predicate Valid() { nextId > 0 && forall id :: id in records ==> 0 < id < nextId }
  }

  function BodyOf(spec: Spec): Body {
    Body(spec.recordType, spec.name, spec.content, spec.comment,
         if spec.ttl.Some? then spec.ttl.value else 0, spec.proxied, spec.priority)
  }

  /** The record has what the spec says, field by field. */
  ghost predicate Carries(b: Body, spec: Spec) {
    && b.recordType == spec.recordType && b.name == spec.name && b.content == spec.content && b.comment == spec.comment
    && b.ttl == (match spec.ttl case Some(n) => n case None => 0)
    && b.proxied == spec.proxied && b.priority == spec.priority
  }

  predicate Acceptable(spec: Spec) { spec.recordType != "" && spec.name != "" }

  function ZoneOf(spec: Spec, defaultZone: string): string { if spec.zoneId != "" then spec.zoneId else defaultZone }

  // --- the four requests ---

  function Post(z: Zone, body: Body, fate: Fate): (Zone, Reply<nat>) {
    var z' := Zone(z.records[z.nextId := body], z.nextId + 1);
    match fate
    case Answered => (z', Ok(z.nextId))
    case Refused => (z, Err(Unanswered))
    case Lost => (z', Err(Unanswered))
  }

  function Put(z: Zone, id: nat, body: Body, fate: Fate): (Zone, Reply<nat>) {
    if fate.Refused? then (z, Err(Unanswered))
    else if id !in z.records then (z, if fate.Lost? then Err(Unanswered) else Err(Missing))
    else (z.(records := z.records[id := body]), if fate.Lost? then Err(Unanswered) else Ok(id))
  }

  function Remove(z: Zone, id: nat, fate: Fate): (Zone, Reply<()>) {
    if fate.Refused? then (z, Err(Unanswered))
    else if id !in z.records then (z, if fate.Lost? then Err(Unanswered) else Err(Missing))
    else (z.(records := z.records - {id}), if fate.Lost? then Err(Unanswered) else Ok(()))
  }

  type Zones = map<string, Zone>

  /** Everything but the one addressed record is as it was. */
  ghost predicate OthersKept(before: Zones, after: Zones, zoneId: string, recordId: nat) {
    && (forall z :: z in after <==> z in before)
    && (forall z, id :: z in before && id in before[z].records && !(z == zoneId && id == recordId) ==>
          id in after[z].records && after[z].records[id] == before[z].records[id])
  }

  /** The provider's view of the account: its zones, and the zone of records that do not name one. */
  class Provider {
    const defaultZone: string
    var zones: Zones

    ghost predicate Valid()
      reads this
    {
      forall z :: z in zones ==> zones[z].Valid()
    }

    constructor (defaultZone: string, zones: Zones)
      requires forall z :: z in zones ==> zones[z].Valid()
      ensures Valid() && this.defaultZone == defaultZone && this.zones == zones
    {
      this.defaultZone, this.zones := defaultZone, zones;
    }

    method ApplyDNSRecord(spec: Spec, st: State, put: Fate, post: Fate) returns (r: Reply<State>)
      requires Valid()
      modifies this`zones
      ensures Valid() && OthersKept(old(zones), zones, ZoneOf(spec, defaultZone), st.recordId)
      ensures r == Err(Invalid) <==>
                spec.recordType == "" || spec.name == "" || (spec.zoneId == "" && defaultZone == "")
      ensures r == Err(Invalid) || ZoneOf(spec, defaultZone) !in old(zones) ==> r.Err? && zones == old(zones)
      ensures r == Err(Missing) ==> ZoneOf(spec, defaultZone) !in old(zones)
      ensures r.Ok? ==>
                && r.value.zoneId == (if spec.zoneId != "" then spec.zoneId else defaultZone)
                && r.value.zoneId in old(zones)
                && r.value.recordId in zones[r.value.zoneId].records
                && Carries(zones[r.value.zoneId].records[r.value.recordId], spec)
                && zones[r.value.zoneId].records[r.value.recordId] == BodyOf(spec)
                && (r.value.recordId == st.recordId || r.value.recordId !in old(zones)[r.value.zoneId].records)
      ensures Acceptable(spec) && ZoneOf(spec, defaultZone) != "" && ZoneOf(spec, defaultZone) in old(zones) ==>
                var target := ZoneOf(spec, defaultZone);
                && (st.recordId in old(zones)[target].records && put.Answered? ==> r == Ok(State(st.recordId, target)))
                && zones == old(zones)[target := Converge(old(zones)[target], target, BodyOf(spec), st, put, post).0]
                && r == Converge(old(zones)[target], target, BodyOf(spec), st, put, post).1
    {
      if !Acceptable(spec) {
        return Err(Invalid);
      }
      var target := if spec.zoneId != "" then spec.zoneId else defaultZone;
      if target == "" {
        return Err(Invalid);
      }
      if target !in zones {
        return Err(NoSuchZone(if st.recordId == 0 || put.Answered? then post else put));
      }
      ConvergeReads(zones[target], target, spec, st, put, post);
      ghost var (z1, r1) := Converge(zones[target], target, BodyOf(spec), st, put, post);
      OneZoneChanged(zones, target, z1, st.recordId);
      var rec := BodyOf(spec);
      var zone, out;
      if st.recordId == 0 {
        var (z, reply) := Post(zones[target], rec, post);
        zone, out := z, reply;
      } else {
        var (z, reply) := Put(zones[target], st.recordId, rec, put);
        zone, out := z, reply;
        if out == Err(Missing) {
          var (z', reply') := Post(zone, rec, post);
          zone, out := z', reply';
        }
      }
      assert zone == z1;
      zones := zones[target := zone];
      if out.Err? {
        return Err(out.error);
      }
      return Ok(State(out.value, target));
    }

    method GetDNSRecord(st: State, fate: Fate) returns (r: Reply<(State, Body)>)
      ensures st.recordId == 0 || st.zoneId == "" ==> r == Err(Missing)
      ensures st.recordId != 0 && st.zoneId != "" ==>
                r == if !fate.Answered? then Err(Unanswered)
                     else if st.zoneId in zones && st.recordId in zones[st.zoneId].records
                     then Ok((st, zones[st.zoneId].records[st.recordId])) else Err(Missing)
    {
      if st.recordId == 0 || st.zoneId == "" {
        return Err(Missing);
      }
      if !fate.Answered? {
        return Err(Unanswered);
      }
      if st.zoneId !in zones || st.recordId !in zones[st.zoneId].records {
        return Err(Missing);
      }
      return Ok((st, zones[st.zoneId].records[st.recordId]));
    }

    method DeleteDNSRecord(st: State, fate: Fate) returns (r: Reply<()>)
      requires Valid()
      modifies this`zones
      ensures Valid() && OthersKept(old(zones), zones, st.zoneId, st.recordId)
      ensures st.recordId == 0 || st.zoneId == "" ==> r == Ok(()) && zones == old(zones)
      ensures r.Ok? && st.zoneId in zones ==> st.zoneId == "" || st.recordId !in zones[st.zoneId].records
      ensures fate.Answered? ==> r.Ok?
      ensures r.Err? ==> !fate.Answered? && r.error == Unanswered && (fate.Refused? ==> zones == old(zones))
      ensures st.zoneId in old(zones) ==>
                && zones == old(zones)[st.zoneId := Erase(old(zones)[st.zoneId], st, fate).0]
                && r == Erase(old(zones)[st.zoneId], st, fate).1
    {
      if st.recordId == 0 || st.zoneId == "" {
        assert st.zoneId in zones ==> zones == zones[st.zoneId := zones[st.zoneId]];
        return Ok(());
      }
      var reply: Reply<()>;
      if st.zoneId in zones {
        var (z, out) := Remove(zones[st.zoneId], st.recordId, fate);
        zones, reply := zones[st.zoneId := z], out;
      } else {
        reply := Err(NoSuchZone(fate));
      }
      if reply.Err? && reply.error != Missing {
        return Err(reply.error);
      }
      return Ok(());
    }
  }

  /** A request to a zone the account does not have, with nothing to carry out. */
  function NoSuchZone(fate: Fate): Failure { if fate.Answered? then Missing else Unanswered }

  lemma OneZoneChanged(before: Zones, zoneId: string, z: Zone, recordId: nat)
    requires zoneId in before && z.Valid() && forall k :: k in before ==> before[k].Valid()
    requires forall id :: id in before[zoneId].records && id != recordId ==>
               id in z.records && z.records[id] == before[zoneId].records[id]
    ensures OthersKept(before, before[zoneId := z], zoneId, recordId)
    ensures var after := before[zoneId := z]; forall k :: k in after ==> after[k].Valid()
  {
  }

  /** What Converge comes to for one zone, read field by field. */
  lemma ConvergeReads(z: Zone, zoneId: string, spec: Spec, st: State, put: Fate, post: Fate)
    requires z.Valid()
    ensures
      var (z', r) := Converge(z, zoneId, BodyOf(spec), st, put, post);
      && z'.Valid()
      && (r.Ok? ==>
            && r.value.zoneId == zoneId && r.value.recordId in z'.records && Carries(z'.records[r.value.recordId], spec)
            && (r.value.recordId == st.recordId || r.value.recordId !in z.records))
      && (r.Err? ==> r.error == Unanswered)
      && (forall id :: id in z.records && id != st.recordId ==> id in z'.records && z'.records[id] == z.records[id])
      && (st.recordId in z.records && put.Answered? ==> r == Ok(State(st.recordId, zoneId)))
  {
  }

  /** What an apply does to the zone and returns. */
  function Converge(z: Zone, zoneId: string, body: Body, st: State, put: Fate, post: Fate): (Zone, Reply<State>) {
    var (z', reply) :=
      if st.recordId == 0 then Post(z, body, post)
      else
        var (z1, r1) := Put(z, st.recordId, body, put);
        if r1 == Err(Missing) then Post(z1, body, post) else (z1, r1);
    (z', if reply.Ok? then Ok(State(reply.value, zoneId)) else Err(reply.error))
  }

  function Erase(z: Zone, st: State, fate: Fate): (Zone, Reply<()>) {
    if st.recordId == 0 || st.zoneId == "" then (z, Ok(()))
    else
      var (z', reply) := Remove(z, st.recordId, fate);
      (z', if reply == Err(Missing) then Ok(()) else reply)
  }

  // --- any run on one record, with others at work in the zone ---

  /** `owned` is history: the IDs this record's applies have created.
      `orphans` are those whose create answer was lost. */
  datatype World = World(zone: Zone, state: State, owned: set<nat>, orphans: set<nat>)

  datatype Event =
    | Apply(body: Body, put: Fate, post: Fate)
    | Get(fate: Fate)
    | Delete(fate: Fate, forget: bool)     // forget: the stored state is dropped after a successful delete
    | OthersAdd(body: Body)
    | OthersRemove(id: nat)
    | OthersEdit(id: nat, body: Body)

  predicate Possible(w: World, e: Event) {
    match e
    case OthersEdit(id, _) => id in w.zone.records
    case _ => true
  }

  function Next(w: World, zoneId: string, e: Event): World {
    match e
    case Apply(body, put, post) =>
      var (z, r) := Converge(w.zone, zoneId, body, w.state, put, post);
      var made := if z.nextId > w.zone.nextId then {w.zone.nextId} else {};
      World(z, if r.Ok? then r.value else w.state, w.owned + made, w.orphans + if r.Err? then made else {})
    case Get(_) => w
    case Delete(fate, forget) =>
      var (z, r) := Erase(w.zone, w.state, fate);
      World(z, if r.Ok? && forget then NO_STATE else w.state, w.owned, w.orphans)
    case OthersAdd(body) => w.(zone := Zone(w.zone.records[w.zone.nextId := body], w.zone.nextId + 1))
    case OthersRemove(id) => w.(zone := w.zone.(records := w.zone.records - {id}))
    case OthersEdit(id, body) => w.(zone := w.zone.(records := w.zone.records[id := body]))
  }

  /** Every live owned record is the one the state names, or an orphan;
      and the state names only owned, non-orphan IDs. */
  ghost predicate Inv(w: World, zoneId: string) {
    && w.zone.Valid() && zoneId != ""
    && w.orphans <= w.owned && (forall id :: id in w.owned ==> 0 < id < w.zone.nextId)
    && (w.state == NO_STATE
         || (w.state.zoneId == zoneId && w.state.recordId in w.owned && w.state.recordId !in w.orphans))
    && (forall id :: id in w.owned && id in w.zone.records ==> id == w.state.recordId || id in w.orphans)
  }

  lemma InvNext(w: World, zoneId: string, e: Event)
    requires Inv(w, zoneId) && Possible(w, e)
    ensures Inv(Next(w, zoneId, e), zoneId)
  {
    if e.Apply? {
      ApplyKeeps(w, zoneId, e);
    }
  }

  lemma ApplyKeeps(w: World, zoneId: string, e: Event)
    requires Inv(w, zoneId) && e.Apply?
    ensures Inv(Next(w, zoneId, e), zoneId)
  {
    var t := Next(w, zoneId, e);
    forall id | id in t.owned && id in t.zone.records ensures id == t.state.recordId || id in t.orphans {}
  }

  ghost predicate IsRun(ws: seq<World>, es: seq<Event>, zoneId: string) {
    && |ws| == |es| + 1 && zoneId != ""
    && ws[0].zone.Valid() && ws[0].state == NO_STATE && ws[0].owned == {} && ws[0].orphans == {}
    && forall i :: 0 <= i < |es| ==> Possible(ws[i], es[i]) && ws[i + 1] == Next(ws[i], zoneId, es[i])
  }

  lemma {:induction false} InvHolds(ws: seq<World>, es: seq<Event>, zoneId: string, n: nat)
    requires IsRun(ws, es, zoneId) && n < |ws|
    ensures Inv(ws[n], zoneId)
  {
    if n == 0 {
      assert Inv(ws[0], zoneId);
    } else {
      InvHolds(ws, es, zoneId, n - 1);
      InvNext(ws[n - 1], zoneId, es[n - 1]);
    }
  }

  /** At most one record created by this resource is live, apart from those whose create answer was lost. */
  lemma AtMostOneOwnedRecord(ws: seq<World>, es: seq<Event>, zoneId: string, n: nat, a: nat, b: nat)
    requires IsRun(ws, es, zoneId) && n < |ws|
    requires a in ws[n].owned && a in ws[n].zone.records && a !in ws[n].orphans
    requires b in ws[n].owned && b in ws[n].zone.records && b !in ws[n].orphans
    ensures a == b == ws[n].state.recordId
  {
    InvHolds(ws, es, zoneId, n);
  }

  /** An apply reaches its create (it has no record yet, or its update is told the record is gone),
      the create is carried out under `id`, and its answer is lost. */
  ghost predicate CreateLost(w: World, e: Event, id: nat) {
    && e.Apply? && e.post.Lost? && id == w.zone.nextId
    && (w.state.recordId == 0 || (e.put.Answered? && w.state.recordId !in w.zone.records))
  }

  lemma OrphansNext(w: World, zoneId: string, e: Event, id: nat)
    ensures id in Next(w, zoneId, e).orphans <==> id in w.orphans || CreateLost(w, e, id)
  {
  }

  /** The orphans are exactly the records whose create answer was lost. */
  lemma {:induction false} OrphansAreLostCreates(ws: seq<World>, es: seq<Event>, zoneId: string, n: nat, id: nat)
    requires IsRun(ws, es, zoneId) && n < |ws|
    ensures id in ws[n].orphans <==> exists i :: 0 <= i < n && CreateLost(ws[i], es[i], id)
  {
    if n > 0 {
      OrphansAreLostCreates(ws, es, zoneId, n - 1, id);
      OrphansNext(ws[n - 1], zoneId, es[n - 1], id);
    }
  }

  lemma OrphansNeedLostCreates(ws: seq<World>, es: seq<Event>, zoneId: string, n: nat)
    requires IsRun(ws, es, zoneId) && n < |ws|
    requires forall i :: 0 <= i < n && es[i].Apply? ==> !es[i].post.Lost?
    ensures ws[n].orphans == {}
  {
    forall id ensures id !in ws[n].orphans { OrphansAreLostCreates(ws, es, zoneId, n, id); }
  }

  /** An orphan lives until somebody else removes it, and then stays gone: no operation of the provider deletes it. */
  lemma OrphanOutlivesProvider(w: World, zoneId: string, e: Event, id: nat)
    requires Inv(w, zoneId) && Possible(w, e) && id in w.orphans
    ensures id in Next(w, zoneId, e).zone.records <==> id in w.zone.records && e != OthersRemove(id)
    ensures id in w.zone.records && (e.Apply? || e.Get? || e.Delete?) ==>
              Next(w, zoneId, e).zone.records[id] == w.zone.records[id]
  {
    if id in w.zone.records && (e.Apply? || e.Get? || e.Delete?) { OthersAreUntouched(w, zoneId, e, id); }
  }

  ghost predicate RemovedSince(es: seq<Event>, i: nat, n: nat, id: nat) {
    exists j :: i < j < n <= |es| && es[j] == OthersRemove(id)
  }

  lemma {:induction false} LiveUnlessRemoved(ws: seq<World>, es: seq<Event>, zoneId: string, i: nat, n: nat, id: nat)
    requires IsRun(ws, es, zoneId) && i < n < |ws| && CreateLost(ws[i], es[i], id)
    ensures id in ws[n].zone.records <==> !RemovedSince(es, i, n, id)
    decreases n
  {
    if n > i + 1 {
      LiveUnlessRemoved(ws, es, zoneId, i, n - 1, id);
      InvHolds(ws, es, zoneId, n - 1);
      OrphansAreLostCreates(ws, es, zoneId, n - 1, id);
      OrphanOutlivesProvider(ws[n - 1], zoneId, es[n - 1], id);
    }
  }

  /** Exactly when the promise of one record holds: the state names every live record this resource has created, if and
      only if each record whose create answer was lost has since been removed by somebody else. */
  lemma OneLiveRecordIff(ws: seq<World>, es: seq<Event>, zoneId: string, n: nat)
    requires IsRun(ws, es, zoneId) && n < |ws|
    ensures (forall id :: id in ws[n].owned && id in ws[n].zone.records ==> id == ws[n].state.recordId)
            <==> forall i, id :: 0 <= i < n && CreateLost(ws[i], es[i], id) ==> RemovedSince(es, i, n, id)
  {
    InvHolds(ws, es, zoneId, n);
    forall i, id | 0 <= i < n && CreateLost(ws[i], es[i], id)
      ensures id in ws[n].owned && id != ws[n].state.recordId
      ensures id in ws[n].zone.records <==> !RemovedSince(es, i, n, id)
    {
      OrphansAreLostCreates(ws, es, zoneId, n, id);
      LiveUnlessRemoved(ws, es, zoneId, i, n, id);
    }
    forall id | id in ws[n].owned && id in ws[n].zone.records && id != ws[n].state.recordId
      ensures exists i :: 0 <= i < n && CreateLost(ws[i], es[i], id)
    {
      OrphansAreLostCreates(ws, es, zoneId, n, id);
    }
  }

  /** After a successful apply the returned state names a live record whose body is the spec's. */
  lemma ApplyConverges(ws: seq<World>, es: seq<Event>, zoneId: string, n: nat)
    requires IsRun(ws, es, zoneId) && n < |es| && es[n].Apply?
    requires Converge(ws[n].zone, zoneId, es[n].body, ws[n].state, es[n].put, es[n].post).1.Ok?
    ensures
      var w := ws[n + 1];
      && w.state.recordId in w.zone.records && w.zone.records[w.state.recordId] == es[n].body
      && w.state.recordId in w.owned && w.state.zoneId == zoneId
  {
    InvHolds(ws, es, zoneId, n);
    InvHolds(ws, es, zoneId, n + 1);
  }

  /** An apply whose requests are answered always succeeds, so it converges whatever others did to the record. */
  lemma AnsweredApplySucceeds(w: World, zoneId: string, body: Body)
    ensures Converge(w.zone, zoneId, body, w.state, Answered, Answered).1.Ok?
  {
  }

  /** No operation of the provider changes a record that is not the one its state names. */
  lemma OthersAreUntouched(w: World, zoneId: string, e: Event, id: nat)
    requires Inv(w, zoneId) && (e.Apply? || e.Get? || e.Delete?)
    requires id in w.zone.records && id != w.state.recordId
    ensures id in Next(w, zoneId, e).zone.records && Next(w, zoneId, e).zone.records[id] == w.zone.records[id]
  {
  }

  /** A lost create answer does leave two live records: the promise of one needs the condition above. */
  lemma LostCreateLeavesTwo(zoneId: string, body: Body) returns (ws: seq<World>, es: seq<Event>)
    requires zoneId != ""
    ensures IsRun(ws, es, zoneId) && |es| == 2 && (forall e :: e in es ==> e.Apply?)
    ensures |ws[2].owned| == 2 && ws[2].owned <= ws[2].zone.records.Keys
  {
    var w0 := World(Zone(map[], 1), NO_STATE, {}, {});
    es := [Apply(body, Answered, Lost), Apply(body, Answered, Answered)];
    var w1 := World(Zone(map[1 := body], 2), NO_STATE, {1}, {1});
    var w2 := World(Zone(map[1 := body, 2 := body], 3), State(2, zoneId), {1, 2}, {1});
    assert Next(w0, zoneId, es[0]) == w1;
    assert Next(w1, zoneId, es[1]) == w2;
    ws := [w0, w1, w2];
  }
}

// The ordered ingress list of a tunnel, edited by many routes: the two edits,
// what any run of them leaves behind, and what a request for a hostname gets.

module Ingress {
  import opened Wrappers

  datatype Json = Str(s: string) | Other(raw: string)

  type Rule = map<string, Json>

  function StringField(m: map<string, Json>, key: string): string {
    if key in m && m[key].Str? then m[key].s else ""
  }

  /** A rule without a string hostname counts as hostless. */
  function HostOf(r: Rule): string { StringField(r, "hostname") }

  const CATCH_ALL: Rule := map["service" := Str("http_status:404")]

  function RouteRule(host: string, service: string, path: string): (r: Rule)
    ensures HostOf(r) == host
  {
    var r := map["hostname" := Str(host), "service" := Str(service)];
    if path != "" then r["path" := Str(path)] else r
  }

  /** The rules for named hosts outside `gone`, in order. */
  function Keep(rs: seq<Rule>, gone: set<string>): seq<Rule> {
    if rs == [] then []
    else
      var last := rs[|rs| - 1];
      Keep(rs[..|rs| - 1], gone) + if HostOf(last) == "" || HostOf(last) in gone then [] else [last]
  }

  // --- rules read field by field ---

  ghost predicate NamesHost(r: Rule, host: string) { "hostname" in r && r["hostname"] == Str(host) }

  ghost predicate NamesNone(r: Rule) { "hostname" !in r || !r["hostname"].Str? || r["hostname"].s == "" }

  lemma HostOfIff(r: Rule, host: string)
    ensures host != "" ==> (HostOf(r) == host <==> NamesHost(r, host))
    ensures HostOf(r) == "" <==> NamesNone(r)
  {
  }

  /** The rule a route contributes: its host and service, its path when it has one, and nothing else. */
  ghost predicate IsRouteRule(r: Rule, host: string, service: string, path: string) {
    && r.Keys == (if path != "" then {"hostname", "service", "path"} else {"hostname", "service"})
    && r["hostname"] == Str(host) && r["service"] == Str(service)
    && (path != "" ==> r["path"] == Str(path))
  }

  ghost predicate IsCatchAll(r: Rule) { r.Keys == {"service"} && r["service"] == Str("http_status:404") }

  datatype Edit = Upsert(host: string, service: string, path: string) | Remove(host: string)

  function Own(e: Edit): seq<Rule> {
    match e
    case Upsert(host, service, path) => [RouteRule(host, service, path)]
    case Remove(_) => []
  }

  function Apply(rs: seq<Rule>, e: Edit): seq<Rule> { Keep(rs, {e.host}) + Own(e) + [CATCH_ALL] }

  method MergeIngressRule(existing: seq<Rule>, hostname: string, service: string, path: string) returns (out: seq<Rule>)
    ensures out == Apply(existing, Upsert(hostname, service, path))
    ensures |out| >= 2 && IsRouteRule(out[|out| - 2], hostname, service, path) && IsCatchAll(out[|out| - 1])
  {
    out := [];
    for i := 0 to |existing|
      invariant out == Keep(existing[..i], {hostname})
    {
      assert existing[..i + 1][..i] == existing[..i];
      var h := HostOf(existing[i]);
      if h == "" || h == hostname {
        continue;
      }
      out := out + [existing[i]];
    }
    assert existing[..|existing|] == existing;
    out := out + [RouteRule(hostname, service, path)];
    out := out + [CATCH_ALL];
  }

  method RemoveIngressRule(existing: seq<Rule>, hostname: string) returns (out: seq<Rule>)
    ensures out == Apply(existing, Remove(hostname))
    ensures out != [] && IsCatchAll(out[|out| - 1])
  {
    out := [];
    for i := 0 to |existing|
      invariant out == Keep(existing[..i], {hostname})
    {
      assert existing[..i + 1][..i] == existing[..i];
      var h := HostOf(existing[i]);
      if h == "" || h == hostname {
        continue;
      }
      out := out + [existing[i]];
    }
    assert existing[..|existing|] == existing;
    out := out + [CATCH_ALL];
  }

  // --- the closed form of a run ---

  function Run(rs: seq<Rule>, es: seq<Edit>): seq<Rule> {
    if es == [] then rs else Apply(Run(rs, es[..|es| - 1]), es[|es| - 1])
  }

  function Hosts(es: seq<Edit>): set<string> { set e | e in es :: e.host }

  /** The rules of the hosts whose last edit was an upsert, in the order of those last edits. */
  function LastUpserts(es: seq<Edit>): seq<Rule> {
    if es == [] then []
    else Head(es[0], Hosts(es[1..])) + LastUpserts(es[1..])
  }

  /** Route edits name a host: the provider rejects an empty one before it edits anything. */
  predicate Named(es: seq<Edit>) { forall e :: e in es ==> e.host != "" }

  lemma {:induction false} KeepAppend(a: seq<Rule>, b: seq<Rule>, gone: set<string>)
    ensures Keep(a + b, gone) == Keep(a, gone) + Keep(b, gone)
  {
    if b == [] {
      assert a + b == a;
    } else {
      assert (a + b)[..|a + b| - 1] == a + b[..|b| - 1];
      KeepAppend(a, b[..|b| - 1], gone);
    }
  }

  lemma {:induction false} KeepKeep(rs: seq<Rule>, gone: set<string>, more: set<string>)
    ensures Keep(Keep(rs, gone), more) == Keep(rs, gone + more)
  {
    if rs != [] {
      var init, last := rs[..|rs| - 1], rs[|rs| - 1];
      KeepKeep(init, gone, more);
      KeepAppend(Keep(init, gone), if HostOf(last) == "" || HostOf(last) in gone then [] else [last], more);
      KeepOne(last, more);
    }
  }

  lemma KeepOne(r: Rule, gone: set<string>)
    ensures Keep([r], gone) == if HostOf(r) == "" || HostOf(r) in gone then [] else [r]
  {
    assert [r][..0] == [];
  }

  /** One rule is kept unless it names no host or the given one. */
  lemma KeepReads(r: Rule, host: string)
    requires host != ""
    ensures Keep([r], {host}) == if NamesNone(r) || NamesHost(r, host) then [] else [r]
  {
    KeepOne(r, {host});
    HostOfIff(r, host);
  }

  lemma KeepOwn(e: Edit, gone: set<string>)
    requires e.host != ""
    ensures Keep(Own(e), gone) == if e.host in gone then [] else Own(e)
  {
    if e.Upsert? { KeepOne(Own(e)[0], gone); }
  }

  /** One more edit drops its host from the list of last upserts and adds its own rule at the end. */
  lemma {:induction false} LastUpsertsAppend(es: seq<Edit>, e: Edit)
    requires Named(es + [e])
    ensures LastUpserts(es + [e]) == Keep(LastUpserts(es), {e.host}) + Own(e)
  {
    if es == [] {
      assert es + [e] == [e] && [e][1..] == [];
      assert LastUpserts([e]) == Own(e);
    } else {
      var rest := es[1..];
      assert (es + [e])[1..] == rest + [e] && (es + [e])[0] == es[0];
      NamedParts(es, e);
      LastUpsertsAppend(rest, e);
      HostsAppend(rest, e);
      HeadAfter(es[0], Hosts(rest), LastUpserts(rest), e);
    }
  }

  lemma NamedParts(es: seq<Edit>, e: Edit)
    requires es != [] && Named(es + [e])
    ensures es[0].host != "" && Named(es[1..] + [e])
  {
    assert es[0] == (es + [e])[0];
    forall x | x in es[1..] + [e] ensures x.host != "" { assert x in es + [e]; }
  }

  lemma Assoc<T>(a: seq<T>, b: seq<T>, c: seq<T>)
    ensures (a + b) + c == a + (b + c)
  {
  }

  /** The part of the first edit that survives the later hosts and then one more. */
  function Head(first: Edit, later: set<string>): seq<Rule> { if first.host in later then [] else Own(first) }

  lemma HeadKept(first: Edit, later: set<string>, host: string)
    requires first.host != ""
    ensures Keep(Head(first, later), {host}) == Head(first, later + {host})
  {
    if first.host !in later { KeepOwn(first, {host}); }
  }

  lemma HeadAfter(first: Edit, later: set<string>, upserts: seq<Rule>, e: Edit)
    requires first.host != ""
    ensures Head(first, later + {e.host}) + (Keep(upserts, {e.host}) + Own(e))
            == Keep(Head(first, later) + upserts, {e.host}) + Own(e)
  {
    HeadKept(first, later, e.host);
    KeepAppend(Head(first, later), upserts, {e.host});
    Assoc(Head(first, later + {e.host}), Keep(upserts, {e.host}), Own(e));
  }

  lemma HostsAppend(es: seq<Edit>, e: Edit)
    ensures Hosts(es + [e]) == Hosts(es) + {e.host}
  {
    assert forall x :: x in es + [e] <==> x in es || x == e;
    forall h | h in Hosts(es) ensures h in Hosts(es + [e]) {
      var x :| x in es && x.host == h;
      assert x in es + [e];
    }
    assert e in es + [e];
  }

  /** Any run of edits: untouched hosts' rules in their order, then one rule per host last upserted,
      then the catch-all. */
  lemma {:induction false} RunClosedForm(rs: seq<Rule>, es: seq<Edit>)
    requires es != [] && Named(es)
    ensures Run(rs, es) == Keep(rs, Hosts(es)) + LastUpserts(es) + [CATCH_ALL]
  {
    var init, e := es[..|es| - 1], es[|es| - 1];
    assert es == init + [e];
    LastUpsertsAppend(init, e);
    HostsAppend(init, e);
    if init == [] {
      FirstEdit(rs, e);
    } else {
      assert forall x :: x in init ==> x in es;
      RunClosedForm(rs, init);
      NextClosedForm(Keep(rs, Hosts(init)), LastUpserts(init), e);
      KeepKeep(rs, Hosts(init), {e.host});
    }
  }

  lemma FirstEdit(rs: seq<Rule>, e: Edit)
    ensures Apply(rs, e) == Keep(rs, Hosts([]) + {e.host}) + (Keep(LastUpserts([]), {e.host}) + Own(e)) + [CATCH_ALL]
  {
    assert Hosts([]) + {e.host} == {e.host};
    assert Keep([], {e.host}) + Own(e) == Own(e);
  }

  lemma NextClosedForm(kept: seq<Rule>, upserts: seq<Rule>, e: Edit)
    ensures Apply(kept + upserts + [CATCH_ALL], e)
            == Keep(kept, {e.host}) + (Keep(upserts, {e.host}) + Own(e)) + [CATCH_ALL]
  {
    KeepAppend(kept + upserts, [CATCH_ALL], {e.host});
    KeepAppend(kept, upserts, {e.host});
    KeepOne(CATCH_ALL, {e.host});
    assert HostOf(CATCH_ALL) == "";
    var k, u := Keep(kept, {e.host}), Keep(upserts, {e.host});
    assert (k + u) + [] == k + u;
    Assoc(k, u, Own(e));
  }

  // --- requests ---

  predicate Matches(r: Rule, host: string) { HostOf(r) == "" || HostOf(r) == host }

  /** The first rule a request for an exact hostname meets. */
  function Lookup(rs: seq<Rule>, host: string): Option<Rule> {
    if rs == [] then None
    else if Matches(rs[0], host) then Some(rs[0]) else Lookup(rs[1..], host)
  }

  /** A rule meets requests for its host, and a rule that names none meets all. */
  ghost predicate Serves(r: Rule, host: string) { NamesNone(r) || NamesHost(r, host) }

  /** The answer is the first rule that serves the host, by position; there is none when no rule does. */
  lemma {:induction false} LookupIsFirst(rs: seq<Rule>, host: string)
    requires host != ""
    ensures match Lookup(rs, host)
            case None => forall i :: 0 <= i < |rs| ==> !Serves(rs[i], host)
            case Some(r) => exists i :: 0 <= i < |rs| && rs[i] == r && Serves(r, host)
                                   && forall j :: 0 <= j < i ==> !Serves(rs[j], host)
  {
    if rs != [] {
      HostOfIff(rs[0], host);
      LookupIsFirst(rs[1..], host);
      if !Matches(rs[0], host) && Lookup(rs[1..], host).Some? {
        var i :| 0 <= i < |rs[1..]| && rs[1..][i] == Lookup(rs, host).value && Serves(rs[1..][i], host)
                 && forall j :: 0 <= j < i ==> !Serves(rs[1..][j], host);
        assert rs[i + 1] == Lookup(rs, host).value;
        forall j | 0 <= j < i + 1 ensures !Serves(rs[j], host) {
          if j > 0 { assert rs[j] == rs[1..][j - 1]; }
        }
      }
    }
  }

  /** The first rule that names the host. */
  function FirstNamed(rs: seq<Rule>, host: string): Option<Rule> {
    if rs == [] then None
    else if HostOf(rs[0]) == host then Some(rs[0]) else FirstNamed(rs[1..], host)
  }

  lemma {:induction false} FirstNamedIff(rs: seq<Rule>, host: string)
    requires host != ""
    ensures FirstNamed(rs, host).Some? <==> exists r :: r in rs && NamesHost(r, host)
    ensures FirstNamed(rs, host).Some? ==>
              FirstNamed(rs, host).value in rs && NamesHost(FirstNamed(rs, host).value, host)
  {
    if rs != [] {
      HostOfIff(rs[0], host);
      FirstNamedIff(rs[1..], host);
      assert rs == [rs[0]] + rs[1..];
    }
  }

  lemma {:induction false} FirstNamedAppend(a: seq<Rule>, b: seq<Rule>, host: string)
    ensures FirstNamed(a + b, host) == if FirstNamed(a, host).Some? then FirstNamed(a, host) else FirstNamed(b, host)
    ensures FirstNamed(a, host).Some? ==> HostOf(FirstNamed(a, host).value) == host
  {
    if a == [] {
      assert a + b == b;
    } else {
      assert (a + b)[1..] == a[1..] + b;
      FirstNamedAppend(a[1..], b, host);
    }
  }

  lemma {:induction false} FirstNamedKept(rs: seq<Rule>, gone: set<string>, host: string)
    requires host != ""
    ensures FirstNamed(Keep(rs, gone), host) == if host in gone then None else FirstNamed(rs, host)
  {
    if rs != [] {
      var init, last := rs[..|rs| - 1], rs[|rs| - 1];
      assert rs == init + [last];
      FirstNamedKept(init, gone, host);
      FirstNamedAppend(init, [last], host);
      FirstNamedAppend(Keep(init, gone), if HostOf(last) == "" || HostOf(last) in gone then [] else [last], host);
    }
  }

  /** A list that names a host in every rule but a final catch-all answers by name, or with the catch-all. */
  lemma {:induction false} LookupNamed(rs: seq<Rule>, host: string)
    requires host != "" && forall r :: r in rs ==> HostOf(r) != ""
    ensures Lookup(rs + [CATCH_ALL], host)
            == if FirstNamed(rs, host).Some? then FirstNamed(rs, host) else Some(CATCH_ALL)
  {
    if rs == [] {
      assert rs + [CATCH_ALL] == [CATCH_ALL];
    } else {
      assert (rs + [CATCH_ALL])[1..] == rs[1..] + [CATCH_ALL] && rs[0] in rs;
      LookupNamed(rs[1..], host);
    }
  }

  lemma {:induction false} KeepNames(rs: seq<Rule>, gone: set<string>)
    ensures forall r :: r in Keep(rs, gone) ==> HostOf(r) != "" && HostOf(r) !in gone
  {
    if rs != [] { KeepNames(rs[..|rs| - 1], gone); }
  }

  /** After an edit, a host is answered by its own rule, by its first rule from before, or by the catch-all. */
  lemma LookupAfter(rs: seq<Rule>, e: Edit, host: string)
    requires e.host != "" && host != ""
    ensures
      var named := if host != e.host then FirstNamed(rs, host)
                   else if e.Upsert? then Some(RouteRule(e.host, e.service, e.path)) else None;
      && Lookup(Apply(rs, e), host) == (if named.Some? then named else Some(CATCH_ALL))
      && FirstNamed(Apply(rs, e), host) == named
  {
    var named := Keep(rs, {e.host}) + Own(e);
    KeepNames(rs, {e.host});
    LookupNamed(named, host);
    FirstNamedAppend(Keep(rs, {e.host}), Own(e), host);
    FirstNamedAppend(named, [CATCH_ALL], host);
    FirstNamedKept(rs, {e.host}, host);
  }

  /** What an edit leaves, read field by field: requests for its host meet the route's own rule, or the catch-all once
      it is removed; no other rule names the host; and the list ends with the catch-all. */
  lemma EditReads(rs: seq<Rule>, e: Edit)
    requires e.host != ""
    ensures
      var out := Apply(rs, e);
      && out != [] && IsCatchAll(out[|out| - 1])
      && Lookup(out, e.host).Some?
      && (match e
          case Upsert(host, service, path) => IsRouteRule(Lookup(out, host).value, host, service, path)
          case Remove(host) => IsCatchAll(Lookup(out, host).value))
      && (forall r :: r in out && NamesHost(r, e.host) ==> e.Upsert? && IsRouteRule(r, e.host, e.service, e.path))
      && (forall r :: !NamesNone(r) && !NamesHost(r, e.host) ==> (r in out <==> r in rs))
  {
    LookupAfter(rs, e, e.host);
    KeepNames(rs, {e.host});
    KeepMembers(rs, {e.host});
    forall r ensures HostOf(r) == e.host <==> NamesHost(r, e.host) { HostOfIff(r, e.host); }
    forall r ensures HostOf(r) == "" <==> NamesNone(r) { HostOfIff(r, ""); }
  }

  lemma {:induction false} KeepMembers(rs: seq<Rule>, gone: set<string>)
    ensures forall r :: r in Keep(rs, gone) <==> r in rs && HostOf(r) != "" && HostOf(r) !in gone
  {
    if rs != [] {
      KeepMembers(rs[..|rs| - 1], gone);
      assert rs == rs[..|rs| - 1] + [rs[|rs| - 1]];
    }
  }

  lemma {:induction false} LookupCases(rs: seq<Rule>, host: string)
    requires host != ""
    ensures var r := Lookup(rs, host);
      && (r.None? ==> FirstNamed(rs, host).None?)
      && (r.Some? && HostOf(r.value) != "" ==> r == FirstNamed(rs, host))
  {
    if rs != [] { LookupCases(rs[1..], host); }
  }

  /** An edit leaves another host's answer alone exactly when that host was already answered by a rule naming it, or has
      no such rule and was already answered by the standard catch-all. */
  lemma OtherHostUnchangedIff(rs: seq<Rule>, e: Edit, host: string)
    requires e.host != "" && host != "" && host != e.host
    ensures Lookup(Apply(rs, e), host) == Lookup(rs, host) <==>
              && Lookup(rs, host).Some?
              && (HostOf(Lookup(rs, host).value) == host
                  || (Lookup(rs, host).value == CATCH_ALL && FirstNamed(rs, host).None?))
  {
    LookupAfter(rs, e, host);
    LookupCases(rs, host);
    FirstNamedAppend(rs, [], host);
  }

  /** A custom final rule is lost by the first edit of an unrelated route, so the condition above is not idle. */
  lemma CustomCatchAllIsLost()
    ensures var rs := [map["service" := Str("http://default")]];
      Lookup(rs, "a") == Some(rs[0]) && Lookup(Apply(rs, Upsert("b", "http://b", "")), "a") == Some(CATCH_ALL)
  {
    var rs: seq<Rule> := [map["service" := Str("http://default")]];
    LookupAfter(rs, Upsert("b", "http://b", ""), "a");
    assert rs[1..] == [];
  }

  /** The list a route leaves behind: every rule but the last names a host, and the last is the standard catch-all. */
  predicate Normal(rs: seq<Rule>) {
    && rs != [] && rs[|rs| - 1] == CATCH_ALL
    && forall r :: r in rs[..|rs| - 1] ==> HostOf(r) != ""
  }

  lemma EditsNormalize(rs: seq<Rule>, e: Edit)
    requires e.host != ""
    ensures Normal(Apply(rs, e))
  {
    KeepNames(rs, {e.host});
    assert Apply(rs, e)[..|Apply(rs, e)| - 1] == Keep(rs, {e.host}) + Own(e);
  }

  /** On such a list no edit changes what any other host gets. */
  lemma NormalListsAreIsolated(rs: seq<Rule>, e: Edit, host: string)
    requires Normal(rs) && e.host != "" && host != "" && host != e.host
    ensures Lookup(Apply(rs, e), host) == Lookup(rs, host)
  {
    var named := rs[..|rs| - 1];
    assert rs == named + [CATCH_ALL];
    LookupNamed(named, host);
    FirstNamedAppend(named, [CATCH_ALL], host);
    FirstNamedAppend(named, [], host);
    OtherHostUnchangedIff(rs, e, host);
  }

  // --- the list as a map ---

  function Step(m: map<string, Rule>, e: Edit): map<string, Rule> {
    match e
    case Upsert(host, service, path) => m[host := RouteRule(host, service, path)]
    case Remove(host) => m - {host}
  }

  function RunMap(m: map<string, Rule>, es: seq<Edit>): map<string, Rule> {
    if es == [] then m else Step(RunMap(m, es[..|es| - 1]), es[|es| - 1])
  }

  /** `m` is the host-to-rule map the list stands for. */
  ghost predicate Represents(rs: seq<Rule>, m: map<string, Rule>) {
    forall h :: h != "" ==> FirstNamed(rs, h) == if h in m then Some(m[h]) else None
  }

  /** Any run of edits on the list is the same run on the map, and the list answers as the map does. */
  lemma {:induction false} ListRefinesMap(rs: seq<Rule>, m: map<string, Rule>, es: seq<Edit>, host: string)
    requires Represents(rs, m) && Named(es) && host != ""
    ensures Represents(Run(rs, es), RunMap(m, es))
    ensures es != [] ==>
              Lookup(Run(rs, es), host) == Some(if host in RunMap(m, es) then RunMap(m, es)[host] else CATCH_ALL)
  {
    if es != [] {
      var init, e := es[..|es| - 1], es[|es| - 1];
      assert es == init + [e] && e in es && forall x :: x in init ==> x in es;
      ListRefinesMap(rs, m, init, host);
      forall h | h != ""
        ensures FirstNamed(Run(rs, es), h) == if h in RunMap(m, es) then Some(RunMap(m, es)[h]) else None
      {
        LookupAfter(Run(rs, init), e, h);
      }
      LookupAfter(Run(rs, init), e, host);
    }
  }
}

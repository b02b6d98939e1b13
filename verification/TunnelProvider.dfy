// The three writers of a tunnel's configuration, and the route probe, against
// the account's remote state. Requests that fail for any reason other than a
// missing object are chosen by the caller.

module TunnelProvider {
  import opened Wrappers
  import opened Ingress

  datatype Tunnel = Tunnel(name: string, id: string)

  datatype Failure = Missing | Refused(why: string)
  type Reply<+T> = Result<T, Failure>

  /** Which of an operation's requests reach the API and are accepted by it. */
  datatype Net = Net(list: bool, get: bool, put: bool)

  datatype RouteSpec = RouteSpec(account: string, tunnel: string, hostname: string, service: string, path: string)
  datatype RouteState = RouteState(accountId: string, tunnelId: string, tunnelName: string, hostname: string)

  predicate Usable(st: RouteState) { st.tunnelId != "" && st.accountId != "" && st.hostname != "" }

  predicate Complete(spec: RouteSpec) {
    spec.account != "" && spec.tunnel != "" && spec.hostname != "" && spec.service != ""
  }

  /** Cloudflare rejects a configuration whose last rule is host-scoped. */
  predicate WellEnded(rs: seq<Rule>) { rs != [] && HostOf(rs[|rs| - 1]) == "" }

  /** One entry of spec.ingress: an object, or something else that is skipped. */
  datatype Item = Object(fields: map<string, Json>) | Scalar

  function RuleOf(fields: map<string, Json>): Rule {
    var service, host := StringField(fields, "service"), StringField(fields, "hostname");
    var path := StringField(fields, "path");
    var r := map["service" := Str(service)];
    var r := if host != "" then r["hostname" := Str(host)] else r;
    if path != "" then r["path" := Str(path)] else r
  }

  predicate Meaningful(i: Item) { i.Object? && StringField(i.fields, "service") != "" }

  /** The rules of the meaningful entries, in order. */
  function SpecRules(items: seq<Item>): seq<Rule> {
    if items == [] then []
    else
      var last := items[|items| - 1];
      SpecRules(items[..|items| - 1]) + if Meaningful(last) then [RuleOf(last.fields)] else []
  }

  /** An entry that declares a rule: an object with a non-empty service. */
  ghost predicate Declares(i: Item) {
    i.Object? && "service" in i.fields && i.fields["service"].Str? && i.fields["service"].s != ""
  }

  /** The rule has the entry's text for `key` when the entry has one, and otherwise no such key. */
  ghost predicate Copies(fields: map<string, Json>, r: Rule, key: string) {
    if key in fields && fields[key].Str? && fields[key].s != "" then key in r && r[key] == fields[key] else key !in r
  }

  /** The rule an entry declares: its service, host and path, and nothing else. */
  ghost predicate IsDeclared(i: Item, r: Rule) {
    && Declares(i) && r.Keys <= {"service", "hostname", "path"}
    && Copies(i.fields, r, "service") && Copies(i.fields, r, "hostname") && Copies(i.fields, r, "path")
  }

  /** `at` lists, in order, the positions of the entries that declare a rule. */
  ghost predicate Picks(items: seq<Item>, at: seq<nat>) {
    && (forall k :: 0 <= k < |at| ==> at[k] < |items| && Declares(items[at[k]]))
    && (forall j, k :: 0 <= j < k < |at| ==> at[j] < at[k])
    && (forall i: nat :: i < |items| && Declares(items[i]) ==> i in at)
  }

  ghost predicate RulesAt(items: seq<Item>, rules: seq<Rule>, at: seq<nat>) {
    Picks(items, at) && |at| == |rules| && forall k :: 0 <= k < |at| ==> IsDeclared(items[at[k]], rules[k])
  }

  /** The rules of a spec are, entry by entry and in order, the ones its entries declare. */
  ghost predicate DeclaredBy(items: seq<Item>, rules: seq<Rule>) { exists at :: RulesAt(items, rules, at) }

  lemma RuleOfReads(i: Item)
    ensures Meaningful(i) <==> Declares(i)
    ensures Meaningful(i) ==> IsDeclared(i, RuleOf(i.fields))
  {
  }

  lemma {:induction false} SpecRulesRead(items: seq<Item>)
    ensures DeclaredBy(items, SpecRules(items))
  {
    if items == [] {
      assert RulesAt(items, [], []);
    } else {
      var init, last := items[..|items| - 1], items[|items| - 1];
      SpecRulesRead(init);
      var at :| RulesAt(init, SpecRules(init), at);
      RuleOfReads(last);
      NextEntry(items, SpecRules(init), at);
    }
  }

  lemma NextEntry(items: seq<Item>, rules: seq<Rule>, at: seq<nat>)
    requires items != [] && RulesAt(items[..|items| - 1], rules, at)
    requires var i := items[|items| - 1]; Meaningful(i) <==> Declares(i)
    requires var i := items[|items| - 1]; Meaningful(i) ==> IsDeclared(i, RuleOf(i.fields))
    ensures
      var last := items[|items| - 1];
      DeclaredBy(items, rules + if Meaningful(last) then [RuleOf(last.fields)] else [])
  {
    var n, last := |items| - 1, items[|items| - 1];
    if Meaningful(last) {
      assert RulesAt(items, rules + [RuleOf(last.fields)], at + [n]);
    } else {
      assert rules + [] == rules;
      assert RulesAt(items, rules, at);
    }
  }

  /** The list sent for a spec, read field by field: what the entries declare, then the catch-all exactly when the last
      declared rule names a host. */
  ghost predicate SentFor(items: seq<Item>, out: seq<Rule>) {
    exists rules :: DeclaredBy(items, rules) && rules != [] && Completes(rules, out)
  }

  ghost predicate Completes(rules: seq<Rule>, out: seq<Rule>)
    requires rules != []
  {
    if "hostname" in rules[|rules| - 1]
    then |out| == |rules| + 1 && out[..|rules|] == rules && IsCatchAll(out[|rules|])
    else out == rules
  }

  lemma DeclaredHost(i: Item, r: Rule)
    requires IsDeclared(i, r)
    ensures "hostname" in r <==> HostOf(r) != ""
  {
  }

  lemma LastDeclared(items: seq<Item>, rules: seq<Rule>)
    requires DeclaredBy(items, rules) && rules != []
    ensures "hostname" in rules[|rules| - 1] <==> HostOf(rules[|rules| - 1]) != ""
  {
    var at :| RulesAt(items, rules, at);
    RuleIsDeclared(items, rules, at, |rules| - 1);
  }

  lemma RuleIsDeclared(items: seq<Item>, rules: seq<Rule>, at: seq<nat>, k: nat)
    requires RulesAt(items, rules, at) && k < |rules|
    ensures "hostname" in rules[k] <==> HostOf(rules[k]) != ""
  {
    var i, r := items[at[k]], rules[k];
    assert IsDeclared(i, r);
    DeclaredHost(i, r);
  }

  lemma CatchAllCompletes(rules: seq<Rule>)
    requires rules != [] && "hostname" in rules[|rules| - 1]
    ensures Completes(rules, rules + [CATCH_ALL])
  {
    assert IsCatchAll(CATCH_ALL);
    assert (rules + [CATCH_ALL])[..|rules|] == rules;
  }

  lemma SpecIngressCompletes(items: seq<Item>)
    requires SpecRules(items) != []
    requires var r := SpecRules(items)[|SpecRules(items)| - 1]; "hostname" in r <==> HostOf(r) != ""
    ensures Completes(SpecRules(items), SpecIngress(items))
  {
    if "hostname" in SpecRules(items)[|SpecRules(items)| - 1] { CatchAllCompletes(SpecRules(items)); }
  }

  lemma SpecIngressReads(items: seq<Item>)
    requires SpecRules(items) != []
    ensures SentFor(items, SpecIngress(items))
  {
    SpecRulesRead(items);
    LastDeclared(items, SpecRules(items));
    SpecIngressCompletes(items);
  }

  /** The list sent for a spec: its rules, with a catch-all when the last of them names a host. */
  function SpecIngress(items: seq<Item>): (rs: seq<Rule>)
    ensures rs == [] <==> SpecRules(items) == []
    ensures rs != [] ==> WellEnded(rs)
    ensures SpecRules(items) <= rs
  {
    var rules := SpecRules(items);
    if rules == [] || WellEnded(rules) then rules else rules + [CATCH_ALL]
  }

  /** tunnelIngress: a catch-all is added only when the last declared rule names a host. */
  method TunnelIngress(items: seq<Item>) returns (out: seq<Rule>)
    ensures out == SpecIngress(items)
  {
    out := [];
    for i := 0 to |items|
      invariant out == SpecRules(items[..i])
      invariant forall r :: r in out ==> (HostOf(r) != "" <==> "hostname" in r)
    {
      assert items[..i + 1][..i] == items[..i];
      if !Meaningful(items[i]) {
        continue;
      }
      out := out + [RuleOf(items[i].fields)];
    }
    assert items[..|items|] == items;
    if out == [] {
      return;
    }
    assert out[|out| - 1] in out;
    if "hostname" in out[|out| - 1] {
      out := out + [CATCH_ALL];
    }
  }

  class Account {
    var tunnels: map<string, seq<Tunnel>>
    var configs: map<(string, string), seq<Rule>>
    var sent: seq<seq<Rule>>   // the body of every configuration request made so far

    ghost predicate Live(acct: string, id: string)
      reads this
    {
      acct in tunnels && exists t :: t in tunnels[acct] && t.id == id
    }

    ghost predicate Named(acct: string, name: string)
      reads this
    {
      acct in tunnels && exists t :: t in tunnels[acct] && t.name == name
    }

    /** What a read of the configuration yields; a missing one reads as empty. */
    ghost function ConfigOf(acct: string, id: string): seq<Rule>
      reads this
    {
      if (acct, id) in configs then configs[(acct, id)] else []
    }

    /** Every configuration sent in the life of the account is non-empty and ends with a hostless rule. */
    ghost predicate Valid()
      reads this
    {
      forall rs :: rs in sent ==> WellEnded(rs)
    }

    constructor (tunnels: map<string, seq<Tunnel>>, configs: map<(string, string), seq<Rule>>)
      ensures Valid() && this.tunnels == tunnels && this.configs == configs && sent == []
    {
      this.tunnels, this.configs, sent := tunnels, configs, [];
    }

    method FindTunnelID(acct: string, name: string, net: Net) returns (r: Reply<string>)
      ensures !net.list ==> r == Err(Refused("list"))
      ensures r.Ok? <==> net.list && Named(acct, name)
      ensures r.Ok? ==> Live(acct, r.value) && Tunnel(name, r.value) in tunnels[acct]
      ensures r.Err? && net.list ==> r.error == Missing
    {
      if !net.list {
        return Err(Refused("list"));
      }
      if acct in tunnels {
        for i := 0 to |tunnels[acct]|
          invariant forall j :: 0 <= j < i ==> tunnels[acct][j].name != name
        {
          var t := tunnels[acct][i];
          if t.name == name {
            assert t in tunnels[acct] && t == Tunnel(name, t.id);
            return Ok(t.id);
          }
        }
      }
      return Err(Missing);
    }

    method ReadTunnelIngress(acct: string, id: string, net: Net) returns (r: Reply<seq<Rule>>)
      ensures r == if net.get then Ok(ConfigOf(acct, id)) else Err(Refused("get"))
    {
      if !net.get {
        return Err(Refused("get"));
      }
      if (acct, id) in configs {
        return Ok(configs[(acct, id)]);
      }
      return Ok([]);
    }

    method WriteTunnelIngress(acct: string, id: string, rules: seq<Rule>, net: Net) returns (r: Reply<()>)
      modifies `configs, `sent
      ensures sent == old(sent) + [rules]
      ensures r.Ok? <==> net.put && Live(acct, id)
      ensures r.Err? ==> r.error == if net.put then Missing else Refused("put")
      ensures configs == if r.Ok? then old(configs)[(acct, id) := rules] else old(configs)
    {
      sent := sent + [rules];
      if !net.put {
        return Err(Refused("put"));
      }
      if acct in tunnels {
        for i := 0 to |tunnels[acct]|
          invariant configs == old(configs) && sent == old(sent) + [rules]
          invariant forall j :: 0 <= j < i ==> tunnels[acct][j].id != id
        {
          if tunnels[acct][i].id == id {
            assert tunnels[acct][i] in tunnels[acct];
            configs := configs[(acct, id) := rules];
            return Ok(());
          }
        }
      }
      return Err(Missing);
    }

    /** Upserts the route's rule in the named tunnel's list, leaving every other configuration alone. */
    method ApplyTunnelRoute(spec: RouteSpec, net: Net) returns (r: Reply<RouteState>)
      requires Valid()
      modifies `configs, `sent
      ensures Valid() && (sent == old(sent) || |sent| == |old(sent)| + 1)
      ensures r.Ok? <==>
                && spec.account != "" && spec.tunnel != "" && spec.hostname != "" && spec.service != ""
                && net.list && net.get && net.put && Named(spec.account, spec.tunnel)
      ensures r.Ok? ==>
                && (spec.account, r.value.tunnelId) in configs
                && var out := configs[(spec.account, r.value.tunnelId)];
                   && Lookup(out, spec.hostname).Some?
                   && IsRouteRule(Lookup(out, spec.hostname).value, spec.hostname, spec.service, spec.path)
                   && IsCatchAll(out[|out| - 1]) && sent == old(sent) + [out]
      ensures !Complete(spec) ==> sent == old(sent)
      ensures r.Err? ==> configs == old(configs)
      ensures r.Ok? ==>
                && Tunnel(spec.tunnel, r.value.tunnelId) in tunnels[spec.account]
                && r.value == RouteState(spec.account, r.value.tunnelId, spec.tunnel, spec.hostname)
                && configs == old(configs)[(spec.account, r.value.tunnelId) :=
                     Apply(old(ConfigOf(spec.account, r.value.tunnelId)),
                           Upsert(spec.hostname, spec.service, spec.path))]
    {
      if spec.account == "" {
        return Err(Refused("no account"));
      }
      if spec.tunnel == "" || spec.hostname == "" || spec.service == "" {
        return Err(Refused("missing field"));
      }
      var id := FindTunnelID(spec.account, spec.tunnel, net);
      if id.Err? {
        return Err(id.error);
      }
      var ingress := ReadTunnelIngress(spec.account, id.value, net);
      if ingress.Err? {
        return Err(ingress.error);
      }
      var rules := MergeIngressRule(ingress.value, spec.hostname, spec.service, spec.path);
      EditReads(ingress.value, Upsert(spec.hostname, spec.service, spec.path));
      var put := WriteTunnelIngress(spec.account, id.value, rules, net);
      if put.Err? {
        return Err(put.error);
      }
      return Ok(RouteState(spec.account, id.value, spec.tunnel, spec.hostname));
    }

    /** Ready exactly when the recorded tunnel's list still names the recorded hostname. */
    method GetTunnelRoute(st: RouteState, net: Net) returns (r: Reply<()>)
      ensures st.tunnelId == "" || st.accountId == "" || st.hostname == "" ==> r == Err(Missing)
      ensures r.Ok? <==>
                && st.tunnelId != "" && st.accountId != "" && st.hostname != "" && net.get
                && exists rule :: rule in ConfigOf(st.accountId, st.tunnelId) && NamesHost(rule, st.hostname)
      ensures Usable(st) && r.Err? ==> r.error == if net.get then Missing else Refused("get")
      ensures Usable(st) && !net.get ==> r.Err?
    {
      if !Usable(st) {
        return Err(Missing);
      }
      var ingress := ReadTunnelIngress(st.accountId, st.tunnelId, net);
      if ingress.Err? {
        return Err(ingress.error);
      }
      var rs := ingress.value;
      FirstNamedIff(rs, st.hostname);
      for i := 0 to |rs|
        invariant FirstNamed(rs, st.hostname) == FirstNamed(rs[i..], st.hostname)
      {
        assert rs[i..][1..] == rs[i + 1..] && rs[i..][0] == rs[i];
        if HostOf(rs[i]) == st.hostname {
          return Ok(());
        }
      }
      assert rs[|rs|..] == [];
      return Err(Missing);
    }

    /** Drops the recorded hostname's rule. A tunnel that is gone makes the closing write fail,
      so the error is returned. */
    method DeleteTunnelRoute(st: RouteState, net: Net) returns (r: Reply<()>)
      requires Valid()
      modifies `configs, `sent
      ensures Valid() && (sent == old(sent) || |sent| == |old(sent)| + 1)
      ensures st.tunnelId == "" || st.accountId == "" || st.hostname == "" ==>
                r == Ok(()) && configs == old(configs) && sent == old(sent)
      ensures r.Ok? && st.tunnelId != "" && st.accountId != "" && st.hostname != "" ==>
                && (st.accountId, st.tunnelId) in configs
                && var out := configs[(st.accountId, st.tunnelId)];
                   && (forall rule :: rule in out ==> !NamesHost(rule, st.hostname))
                   && out != [] && IsCatchAll(out[|out| - 1])
      ensures Usable(st) ==> (r.Ok? <==> net.get && net.put && Live(st.accountId, st.tunnelId))
      ensures r.Err? ==> r.error == if !net.get then Refused("get") else if !net.put then Refused("put") else Missing
      ensures configs == if r.Ok? && Usable(st)
                         then old(configs)[(st.accountId, st.tunnelId) :=
                                Apply(old(ConfigOf(st.accountId, st.tunnelId)), Remove(st.hostname))]
                         else old(configs)
    {
      if !Usable(st) {
        return Ok(());
      }
      var ingress := ReadTunnelIngress(st.accountId, st.tunnelId, net);
      if ingress.Err? {
        return if ingress.error == Missing then Ok(()) else Err(ingress.error);
      }
      var rules := RemoveIngressRule(ingress.value, st.hostname);
      EditReads(ingress.value, Remove(st.hostname));
      r := WriteTunnelIngress(st.accountId, st.tunnelId, rules, net);
    }

    /** The configuration part of applying a Tunnel: nothing is sent when the spec declares no meaningful rule. */
    method PushTunnelSpec(acct: string, id: string, items: seq<Item>, net: Net) returns (r: Reply<()>)
      requires Valid()
      modifies `configs, `sent
      ensures Valid()
      ensures SpecRules(items) == [] ==> r == Ok(()) && sent == old(sent) && configs == old(configs)
      ensures SpecRules(items) != [] ==>
                && sent == old(sent) + [SpecIngress(items)] && SentFor(items, SpecIngress(items))
                && (r.Ok? <==> net.put && Live(acct, id))
                && configs == if r.Ok? then old(configs)[(acct, id) := SpecIngress(items)] else old(configs)
    {
      var ingress := TunnelIngress(items);
      if SpecRules(items) != [] { SpecIngressReads(items); }
      if |ingress| == 0 {
        return Ok(());
      }
      r := WriteTunnelIngress(acct, id, ingress, net);
    }
  }
  /** The route of a tunnel that has been deleted cannot be deleted: the closing write is told the tunnel is missing. */
  method DeleteAfterTunnelIsGone() returns (r: Reply<()>)
    ensures r == Err(Missing)
  {
    var account := new Account(map[], map[]);
    r := account.DeleteTunnelRoute(RouteState("acct", "t1", "home", "a.example.com"), Net(true, true, true));
  }
}

// What a plan promises its reader, stated about any result Build may return.

module PlanProperties {
  import opened Text
  import opened DependencyGraph
  import opened Planner
  import opened BatchPlan

  // --- the manifests' own words ---

  /** The identity in the reference, written out, is d's. */
  ghost predicate Names(ref: Ref, d: Resource) {
    ref.apiVersion + "|" + ref.kind + "|" + ref.name == d.apiVersion + "|" + d.kind + "|" + d.name
  }

  ghost predicate SameIdentity(a: Resource, b: Resource) {
    a.apiVersion + "|" + a.kind + "|" + a.name == b.apiVersion + "|" + b.kind + "|" + b.name
  }

  /** r's spec refers to d, another resource of the set. */
  ghost predicate WaitsFor(ps: seq<Resource>, r: Resource, d: Resource) {
    d in ps && d != r && exists ref :: ref in r.refs && Names(ref, d)
  }

  /** The edges of the graph are the references between different resources of the set. */
  lemma EdgesAreReferences(ps: seq<Resource>, r: Resource, d: Resource)
    requires Distinct(ps) && r in ps && d in ps
    ensures KeyOf(d) in GraphOf(ps).deps[KeyOf(r)] <==> WaitsFor(ps, r, d)
  {
    if KeyOf(d) in GraphOf(ps).deps[KeyOf(r)] {
      var r', ref :| r' in ps && KeyOf(r') == KeyOf(r) && ref in r'.refs && RefKey(ref) == KeyOf(d);
      SameKeySameResource(ps, r, r');
      assert Names(ref, d);
    }
    if WaitsFor(ps, r, d) {
      var ref :| ref in r.refs && Names(ref, d);
      assert RefKey(ref) == KeyOf(d);
      if KeyOf(d) == KeyOf(r) { SameKeySameResource(ps, d, r); }
      assert DependsOn(ps, KeyOf(r), KeyOf(d));
    }
  }

  /** Each resource of the chain refers to the next. */
  ghost predicate ResourceChain(ps: seq<Resource>, c: seq<Resource>) {
    && c != [] && (forall i :: 0 <= i < |c| ==> c[i] in ps)
    && forall i :: 0 <= i < |c| - 1 ==> WaitsFor(ps, c[i], c[i + 1])
  }

  ghost predicate ResourceCycle(ps: seq<Resource>, c: seq<Resource>) {
    ResourceChain(ps, c) && |c| >= 2 && c[0] == c[|c| - 1]
  }

  ghost predicate LeadsToCycle(ps: seq<Resource>, r: Resource) {
    exists c, o :: ResourceChain(ps, c) && c[0] == r && ResourceCycle(ps, o) && o[0] == c[|c| - 1]
  }

  lemma ChainOfKeys(ps: seq<Resource>, c: seq<Resource>)
    requires Distinct(ps) && ResourceChain(ps, c)
    ensures IsChain(GraphOf(ps), KeysOf(c))
  {
    forall i | 0 <= i < |c| - 1 ensures KeysOf(c)[i + 1] in GraphOf(ps).deps[KeysOf(c)[i]] {
      assert c[i + 1] in ps && WaitsFor(ps, c[i], c[i + 1]);
      EdgesAreReferences(ps, c[i], c[i + 1]);
    }
  }

  lemma TailIsChain(g: Graph, p: seq<Key>)
    requires IsChain(g, p) && |p| > 1
    ensures IsChain(g, p[1..])
  {
    forall i | 0 <= i < |p[1..]| - 1 ensures p[1..][i] in g.deps && p[1..][i + 1] in g.deps[p[1..][i]] {
      assert p[i + 1] in g.deps && p[i + 1 + 1] in g.deps[p[i + 1]];
    }
  }

  lemma {:induction false} ChainOfResources(ps: seq<Resource>, p: seq<Key>) returns (c: seq<Resource>)
    requires Distinct(ps) && IsChain(GraphOf(ps), p)
    ensures ResourceChain(ps, c) && KeysOf(c) == p
  {
    var r := Find(ps, p[0]);
    if |p| == 1 {
      c := [r];
    } else {
      TailIsChain(GraphOf(ps), p);
      var rest := ChainOfResources(ps, p[1..]);
      c := [r] + rest;
      assert KeyOf(rest[0]) == KeysOf(rest)[0];
      assert p[0 + 1] in GraphOf(ps).deps[p[0]];
      EdgesAreReferences(ps, r, rest[0]);
    }
  }

  lemma CycleIff(ps: seq<Resource>, r: Resource)
    requires Distinct(ps) && r in ps
    ensures OnCycle(GraphOf(ps), KeyOf(r)) <==> exists o :: ResourceCycle(ps, o) && o[0] == r
  {
    if o :| ResourceCycle(ps, o) && o[0] == r {
      ChainOfKeys(ps, o);
      assert ChainFrom(GraphOf(ps), KeyOf(r), KeysOf(o));
    }
    if OnCycle(GraphOf(ps), KeyOf(r)) {
      var p :| ChainFrom(GraphOf(ps), KeyOf(r), p) && |p| >= 2 && p[|p| - 1] == KeyOf(r);
      var o := ChainOfResources(ps, p);
      assert KeyOf(o[0]) == KeysOf(o)[0] && KeyOf(o[|o| - 1]) == KeysOf(o)[|o| - 1];
      SameKeySameResource(ps, o[0], r);
      SameKeySameResource(ps, o[|o| - 1], r);
    }
  }

  lemma LeadingReachesCycle(ps: seq<Resource>, c: seq<Resource>, o: seq<Resource>)
    requires Distinct(ps) && ResourceChain(ps, c) && ResourceCycle(ps, o) && o[0] == c[|c| - 1]
    ensures ReachesCycle(GraphOf(ps), KeyOf(c[0]))
  {
    CycleIff(ps, o[0]);
    ChainOfKeys(ps, c);
    assert ChainFrom(GraphOf(ps), KeyOf(c[0]), KeysOf(c));
  }

  lemma ReachingLeadsToCycle(ps: seq<Resource>, r: Resource, p: seq<Key>)
    requires Distinct(ps) && r in ps && ChainFrom(GraphOf(ps), KeyOf(r), p) && OnCycle(GraphOf(ps), p[|p| - 1])
    ensures LeadsToCycle(ps, r)
  {
    var c := ChainOfResources(ps, p);
    assert KeyOf(c[0]) == KeysOf(c)[0] && KeyOf(c[|c| - 1]) == KeysOf(c)[|c| - 1];
    SameKeySameResource(ps, c[0], r);
    CycleIff(ps, c[|c| - 1]);
  }

  /** Being bound to a cycle, in the graph of keys, is leading to a cycle of references between resources. */
  lemma LeadsToCycleIff(ps: seq<Resource>, r: Resource)
    requires Distinct(ps) && r in ps
    ensures KeyOf(r) in CycleBound(GraphOf(ps)) <==> LeadsToCycle(ps, r)
  {
    if LeadsToCycle(ps, r) {
      var c, o :| ResourceChain(ps, c) && c[0] == r && ResourceCycle(ps, o) && o[0] == c[|c| - 1];
      LeadingReachesCycle(ps, c, o);
    }
    if ReachesCycle(GraphOf(ps), KeyOf(r)) {
      var p :| ChainFrom(GraphOf(ps), KeyOf(r), p) && OnCycle(GraphOf(ps), p[|p| - 1]);
      ReachingLeadsToCycle(ps, r, p);
    }
  }

  lemma AcyclicIff(ps: seq<Resource>)
    requires Distinct(ps)
    ensures Acyclic(GraphOf(ps)) <==> forall o :: !ResourceCycle(ps, o)
  {
    if o :| ResourceCycle(ps, o) {
      CycleIff(ps, o[0]);
    }
    if k :| k in GraphOf(ps).nodes && OnCycle(GraphOf(ps), k) {
      CycleIff(ps, Find(ps, k));
    }
  }

  // --- the waves ---

  ghost predicate At(waves: seq<seq<Node>>, n: nat, i: nat, r: Resource) {
    n < |waves| && i < |waves[n]| && waves[n][i].resource == r
  }

  lemma PlanNodes(ps: seq<Resource>, waves: seq<seq<Node>>) returns (nodes: map<Key, Node>)
    requires Distinct(ps) && PlanFor(ps, waves)
    ensures NodesOk(ps, nodes) && IsPlan(GraphOf(ps), nodes, waves)
    ensures forall k :: k in nodes ==> nodes[k].resource in ps && KeyOf(nodes[k].resource) == k
  {
    nodes :| NodesOk(ps, nodes) && IsPlan(GraphOf(ps), nodes, waves);
    forall k | k in nodes ensures nodes[k].resource in ps && KeyOf(nodes[k].resource) == k {
      var r := Find(ps, k);
    }
  }

  /** A resource of wave n is the one listed resource with its key, and its key is at level n. */
  lemma PlacedAtLevel(ps: seq<Resource>, waves: seq<seq<Node>>, n: nat, i: nat, r: Resource)
    requires Distinct(ps) && PlanFor(ps, waves) && At(waves, n, i, r)
    ensures r in ps && KeyOf(r) in Level(GraphOf(ps), n)
  {
    var nodes := PlanNodes(ps, waves);
    assert IsWave(Level(GraphOf(ps), n), nodes, waves[n]);
  }

  lemma LevelsAreDisjoint(g: Graph, k: Key, m: nat, n: nat)
    requires g.Valid() && k in Level(g, m) && k in Level(g, n)
    ensures m == n
  {
    if m < n { SettledGrows(g, m + 1, n); }
    if n < m { SettledGrows(g, n + 1, m); }
  }

  /** The waves partition the resources: each occurs in one wave, at one position. */
  lemma EveryResourceOnce(ps: seq<Resource>, waves: seq<seq<Node>>, r: Resource)
    requires Distinct(ps) && PlanFor(ps, waves) && r in ps
    ensures exists n, i :: At(waves, n, i, r)
    ensures forall n, i, m, j :: At(waves, n, i, r) && At(waves, m, j, r) ==> n == m && i == j
  {
    var g := GraphOf(ps);
    var nodes := PlanNodes(ps, waves);
    var k := KeyOf(r);
    FindLevel(g, k, |waves|);
    var n :| 0 <= n < |waves| && k in Level(g, n);
    assert IsWave(Level(g, n), nodes, waves[n]);
    var i :| 0 <= i < |waves[n]| && KeyOf(waves[n][i].resource) == k;
    assert waves[n][i] == nodes[k];
    SameKeySameResource(ps, waves[n][i].resource, r);
    assert At(waves, n, i, r);
    forall m, j | At(waves, m, j, r) ensures m == n && j == i {
      PlacedAtLevel(ps, waves, m, j, r);
      LevelsAreDisjoint(g, k, m, n);
    }
  }

  /** Every dependency is applied in a strictly earlier wave. */
  lemma DependenciesAppliedFirst(ps: seq<Resource>, waves: seq<seq<Node>>, r: Resource, d: Resource,
                                n: nat, i: nat, m: nat, j: nat)
    requires Distinct(ps) && PlanFor(ps, waves) && At(waves, n, i, r) && At(waves, m, j, d)
    requires WaitsFor(ps, r, d)
    ensures m < n
  {
    var g := GraphOf(ps);
    PlacedAtLevel(ps, waves, n, i, r);
    PlacedAtLevel(ps, waves, m, j, d);
    SettledGrows(g, n + 1, n + 1);
    SettledGrows(g, m + 1, m + 1);
    EdgesAreReferences(ps, r, d);
    DependenciesComeEarlier(g, KeyOf(r), KeyOf(d), n);
    var l :| 0 <= l < n && KeyOf(d) in Level(g, l);
    LevelsAreDisjoint(g, KeyOf(d), m, l);
  }

  /** A resource waits exactly as long as its longest chain of dependencies. */
  lemma WaveIsChainLength(ps: seq<Resource>, waves: seq<seq<Node>>, r: Resource, n: nat, i: nat)
    requires Distinct(ps) && PlanFor(ps, waves) && At(waves, n, i, r)
    ensures exists p :: ChainFrom(GraphOf(ps), KeyOf(r), p) && |p| - 1 == n
    ensures forall p :: ChainFrom(GraphOf(ps), KeyOf(r), p) ==> |p| - 1 <= n
  {
    PlacedAtLevel(ps, waves, n, i, r);
    SettledGrows(GraphOf(ps), n + 1, n + 1);
    WaveIsLongestChain(GraphOf(ps), KeyOf(r), n);
  }

  /** No schedule that respects the dependencies has fewer slots than the plan has waves. */
  lemma FewestWaves(ps: seq<Resource>, waves: seq<seq<Node>>, rank: map<Key, nat>, slots: nat)
    requires Distinct(ps) && PlanFor(ps, waves)
    requires Respects(GraphOf(ps), rank) && forall k :: k in rank ==> rank[k] < slots
    ensures |waves| <= slots
  {
    if waves != [] {
      var n := |waves| - 1;
      assert waves[n] != [] && At(waves, n, 0, waves[n][0].resource);
      PlacedAtLevel(ps, waves, n, 0, waves[n][0].resource);
      WaveCountIsMinimal(GraphOf(ps), rank, slots, n);
    }
  }

  // --- determinism ---

  ghost predicate LabelsDistinct(ps: seq<Resource>) {
    forall r, r' :: r in ps && r' in ps && LabelOf(r) == LabelOf(r') ==> r == r'
  }

  lemma NodesAreDetermined(ps: seq<Resource>, a: map<Key, Node>, b: map<Key, Node>)
    requires Distinct(ps) && NodesOk(ps, a) && NodesOk(ps, b)
    ensures a == b
  {
    forall k | k in a ensures k in b && a[k] == b[k] {
      var r := Find(ps, k);
      assert a[KeyOf(r)].resource == r && b[KeyOf(r)].resource == r;
      assert NodeOk(ps, a[k]) && NodeOk(ps, b[k]);
      SameIsIdentity(a[k].deps, b[k].deps);
      SameIsIdentity(a[k].external, b[k].external);
    }
    forall k | k in b ensures k in a {}
  }

  lemma SameIsIdentity(a: seq<string>, b: seq<string>)
    requires multiset(a) == multiset(b) && SortedBy(a, Same) && SortedBy(b, Same)
    ensures a == b
  {
    forall i, j | 0 <= i < j < |a| ensures AtMost(a[i], a[j]) { assert AtMost(Same(a[i]), Same(a[j])); }
    forall i, j | 0 <= i < j < |b| ensures AtMost(b[i], b[j]) { assert AtMost(Same(b[i]), Same(b[j])); }
    SortedStringsAreUnique(a, b);
  }

  lemma SameWaveCount(g: Graph, nodes: map<Key, Node>, a: seq<seq<Node>>, b: seq<seq<Node>>)
    requires g.Valid() && IsPlan(g, nodes, a) && IsPlan(g, nodes, b)
    ensures |a| <= |b|
  {
    SettledGrows(g, |b|, |b| + 1);
    assert Level(g, |b|) == {} by {
      assert Settled(g, |b| + 1) <= g.nodes by { SettledGrows(g, |b| + 1, |b| + 1); }
    }
    forall n | 0 <= n < |a| ensures Level(g, n) != {} {
      assert IsWave(Level(g, n), nodes, a[n]);
      assert KeyOf(a[n][0].resource) in Level(g, n);
    }
  }

  lemma SameWaveNodes(level: set<Key>, nodes: map<Key, Node>, a: seq<Node>, b: seq<Node>)
    requires IsWave(level, nodes, a) && IsWave(level, nodes, b)
    ensures forall x :: x in a ==> x in b
  {
    forall x | x in a ensures x in b {
      var i :| 0 <= i < |a| && a[i] == x;
      assert KeyOf(a[i].resource) in level;
      var j :| 0 <= j < |b| && KeyOf(b[j].resource) == KeyOf(x.resource);
      assert b[j] == x;
    }
  }

  lemma SameWave(ps: seq<Resource>, level: set<Key>, nodes: map<Key, Node>, a: seq<Node>, b: seq<Node>)
    requires LabelsDistinct(ps) && IsWave(level, nodes, a) && IsWave(level, nodes, b)
    requires forall k :: k in nodes ==> nodes[k].resource in ps
    ensures a == b
  {
    SameWaveNodes(level, nodes, a, b);
    SameWaveNodes(level, nodes, b, a);
    DisplaysDiffer(ps, nodes, a);
    DisplaysDiffer(ps, nodes, b);
    DistinctSubset(a, b);
    DistinctSubset(b, a);
    StrictlySortedIsUnique(a, b, Display);
  }

  lemma DisplaysDiffer(ps: seq<Resource>, nodes: map<Key, Node>, a: seq<Node>)
    requires LabelsDistinct(ps) && forall k :: k in nodes ==> nodes[k].resource in ps
    requires forall i :: 0 <= i < |a| ==> KeyOf(a[i].resource) in nodes && a[i] == nodes[KeyOf(a[i].resource)]
    requires forall i, j :: 0 <= i < j < |a| ==> KeyOf(a[i].resource) != KeyOf(a[j].resource)
    ensures forall i, j :: 0 <= i < j < |a| ==> Display(a[i]) != Display(a[j])
  {
  }

  lemma {:induction false} DistinctSubset<T>(a: seq<T>, b: seq<T>)
    requires forall i, j :: 0 <= i < j < |a| ==> a[i] != a[j]
    requires forall x :: x in a ==> x in b
    ensures |a| <= |b|
  {
    if a != [] {
      var last := a[|a| - 1];
      assert last in a;
      var j :| 0 <= j < |b| && b[j] == last;
      var a', b' := a[..|a| - 1], b[..j] + b[j + 1..];
      forall x | x in a' ensures x in b' {
        assert x in a && x != last;
        var m :| 0 <= m < |b| && b[m] == x;
        assert if m < j then b'[m] == x else b'[m - 1] == x;
      }
      DistinctSubset(a', b');
    }
  }

  /** Whatever order the maps were iterated in, two plans of the same manifests have the same waves as sets of nodes,
      and are the same plan when labels are distinct. */
  lemma PlansAgree(ps: seq<Resource>, a: seq<seq<Node>>, b: seq<seq<Node>>)
    requires Distinct(ps) && PlanFor(ps, a) && PlanFor(ps, b)
    ensures |a| == |b|
    ensures forall n :: 0 <= n < |a| ==> forall x :: x in a[n] <==> x in b[n]
    ensures LabelsDistinct(ps) ==> a == b
  {
    var nodes := PlanNodes(ps, a);
    var nodes' := PlanNodes(ps, b);
    NodesAreDetermined(ps, nodes, nodes');
    var g := GraphOf(ps);
    SameWaveCount(g, nodes, a, b);
    SameWaveCount(g, nodes, b, a);
    forall n | 0 <= n < |a|
      ensures forall x :: x in a[n] <==> x in b[n]
      ensures LabelsDistinct(ps) ==> a[n] == b[n]
    {
      SameWaveNodes(Level(g, n), nodes, a[n], b[n]);
      SameWaveNodes(Level(g, n), nodes, b[n], a[n]);
      if LabelsDistinct(ps) { SameWave(ps, Level(g, n), nodes, a[n], b[n]); }
    }
  }

  // --- cycles ---

  lemma ReportedLabel(ps: seq<Resource>, nodes: map<Key, Node>, ks: seq<Key>, l: string) returns (r: Resource)
    requires Distinct(ps) && Holds(ps, nodes) && (forall k :: k in ks ==> k in nodes) && l in Labels(nodes, ks)
    ensures r in ps && LabelOf(r) == l && KeyOf(r) in ks
  {
    var i :| 0 <= i < |ks| && Labels(nodes, ks)[i] == l;
    assert ks[i] in ks;
    r := Find(ps, ks[i]);
  }

  lemma LabelReported(ps: seq<Resource>, nodes: map<Key, Node>, ks: seq<Key>, r: Resource)
    requires Holds(ps, nodes) && (forall k :: k in ks ==> k in nodes) && r in ps && KeyOf(r) in ks
    ensures LabelOf(r) in Labels(nodes, ks)
  {
    var i :| 0 <= i < |ks| && ks[i] == KeyOf(r);
    assert Labels(nodes, ks)[i] == LabelOf(r);
  }

  ghost predicate InTextOrder(xs: seq<string>) { forall i, j :: 0 <= i < j < |xs| ==> AtMost(xs[i], xs[j]) }

  /** The report of a cycle has one label for each resource that leads to a cycle, and no other label, in text order. */
  lemma StuckReportIsExact(ps: seq<Resource>, stuck: seq<string>)
    requires Distinct(ps) && StuckReportFor(ps, stuck)
    ensures |stuck| == |CycleBound(GraphOf(ps))| && InTextOrder(stuck)
    ensures forall l :: l in stuck <==> exists r :: r in ps && LeadsToCycle(ps, r) && r.kind + "/" + r.name == l
  {
    var nodes, ks := StuckKeys(ps, stuck);
    ListsSize(ks, CycleBound(GraphOf(ps)));
    var ls := Labels(nodes, ks);
    assert |multiset(stuck)| == |multiset(ls)|;
    ByTextIsInTextOrder(stuck);
    forall l | l in stuck ensures exists r :: r in ps && LeadsToCycle(ps, r) && r.kind + "/" + r.name == l {
      assert l in multiset(ls);
      var r := ReportedLabel(ps, nodes, ks, l);
      LeadsToCycleIff(ps, r);
    }
    forall r | r in ps && LeadsToCycle(ps, r) ensures r.kind + "/" + r.name in stuck {
      LeadsToCycleIff(ps, r);
      LabelReported(ps, nodes, ks, r);
      assert LabelOf(r) in multiset(stuck);
    }
  }

  lemma ByTextIsInTextOrder(xs: seq<string>)
    requires SortedBy(xs, Same)
    ensures InTextOrder(xs)
  {
    forall i, j | 0 <= i < j < |xs| ensures AtMost(xs[i], xs[j]) { assert AtMost(Same(xs[i]), Same(xs[j])); }
  }

  lemma StuckKeys(ps: seq<Resource>, stuck: seq<string>) returns (nodes: map<Key, Node>, ks: seq<Key>)
    requires Distinct(ps) && StuckReportFor(ps, stuck)
    ensures NodesOk(ps, nodes) && Lists(ks, CycleBound(GraphOf(ps))) && forall k :: k in ks ==> k in nodes
    ensures IsSortOf(stuck, Labels(nodes, ks), Same)
  {
    nodes :| NodesOk(ps, nodes) && IsStuckReport(GraphOf(ps), nodes, stuck);
    ks :| Lists(ks, CycleBound(GraphOf(ps))) && (forall k :: k in ks ==> k in nodes)
          && IsSortOf(stuck, Labels(nodes, ks), Same);
  }

  lemma LabelsWithout(nodes: map<Key, Node>, b: seq<Key>, j: nat)
    requires j < |b| && forall k :: k in b ==> k in nodes
    ensures (forall k :: k in b[..j] + b[j + 1..] ==> k in nodes) && b[j] in nodes
    ensures multiset(Labels(nodes, b)) == multiset(Labels(nodes, b[..j] + b[j + 1..])) + multiset{Display(nodes[b[j]])}
  {
    assert b[j] in b;
    var ls := Labels(nodes, b);
    assert Labels(nodes, b[..j] + b[j + 1..]) == ls[..j] + ls[j + 1..];
    assert ls == ls[..j] + [Display(nodes[b[j]])] + ls[j + 1..];
  }

  lemma {:induction false} LabelsPermuted(nodes: map<Key, Node>, a: seq<Key>, b: seq<Key>)
    requires multiset(a) == multiset(b) && (forall k :: k in a ==> k in nodes) && (forall k :: k in b ==> k in nodes)
    ensures multiset(Labels(nodes, a)) == multiset(Labels(nodes, b))
  {
    assert |multiset(a)| == |a| && |multiset(b)| == |b|;
    if a != [] {
      var m := |a| - 1;
      assert a[m] in multiset(b);
      var j :| 0 <= j < |b| && b[j] == a[m];
      LabelsWithout(nodes, a, m);
      LabelsWithout(nodes, b, j);
      Without(a, m);
      Without(b, j);
      LabelsPermuted(nodes, a[..m] + a[m + 1..], b[..j] + b[j + 1..]);
    }
  }

  lemma Without<T>(a: seq<T>, j: nat)
    requires j < |a|
    ensures multiset(a[..j] + a[j + 1..]) == multiset(a) - multiset{a[j]}
  {
    assert a == a[..j] + [a[j]] + a[j + 1..];
  }

  lemma SameKeysPermute(a: seq<Key>, b: seq<Key>, s: set<Key>)
    requires Lists(a, s) && Lists(b, s)
    ensures multiset(a) == multiset(b)
  {
    DistinctByCount(a);
    DistinctByCount(b);
    forall k ensures multiset(a)[k] == multiset(b)[k] {
      assert k in a <==> k in multiset(a);
      assert k in b <==> k in multiset(b);
    }
  }

  lemma StuckReportsAgree(ps: seq<Resource>, a: seq<string>, b: seq<string>)
    requires Distinct(ps) && StuckReportFor(ps, a) && StuckReportFor(ps, b)
    ensures a == b
  {
    var nodes, ks := StuckKeys(ps, a);
    var nodes', ks' := StuckKeys(ps, b);
    NodesAreDetermined(ps, nodes, nodes');
    SameKeysPermute(ks, ks', CycleBound(GraphOf(ps)));
    LabelsPermuted(nodes, ks, ks');
    SameIsIdentity(a, b);
  }

  lemma FirstDuplicatesAgree(ps: seq<Resource>, a: Resource, b: Resource)
    requires FirstDuplicate(ps, a) && FirstDuplicate(ps, b)
    ensures a == b
  {
    var i: nat :| DuplicateAt(ps, i, a);
    var j: nat :| DuplicateAt(ps, j, b);
    NoneEarlier(ps, i, a, j, b);
    NoneEarlier(ps, j, b, i, a);
  }

  lemma NoneEarlier(ps: seq<Resource>, i: nat, a: Resource, j: nat, b: Resource)
    requires DuplicateAt(ps, i, a) && DuplicateAt(ps, j, b)
    ensures j <= i
  {
    if i < j { PrefixDistinct(ps, i + 1, j); }
  }

  lemma PrefixDistinct(ps: seq<Resource>, m: nat, n: nat)
    requires m <= n <= |ps| && Distinct(ps[..n])
    ensures Distinct(ps[..m])
  {
    forall i, j | 0 <= i < j < m ensures KeyOf(ps[..m][i]) != KeyOf(ps[..m][j]) {
      assert ps[..n][i] == ps[i] && ps[..n][j] == ps[j];
    }
  }

  /** A result that is right for the manifests is a plan exactly when identities are distinct and
      nothing is circular. */
  lemma KindIsDetermined(ps: seq<Resource>, r: Result)
    requires ResultOk(ps, r)
    ensures r.Duplicate? <==> !Distinct(ps)
    ensures r.Planned? <==> Distinct(ps) && Acyclic(GraphOf(ps))
    ensures r.Duplicate? <==> exists i, j :: 0 <= i < j < |ps| && SameIdentity(ps[i], ps[j])
    ensures r.Cycle? ==> exists o :: ResourceCycle(ps, o)
    ensures r.Planned? ==> forall o :: !ResourceCycle(ps, o)
  {
    assert Distinct(ps) <==> forall i, j :: 0 <= i < j < |ps| ==> !SameIdentity(ps[i], ps[j]);
    if Distinct(ps) { AcyclicIff(ps); }
    match r
    case Duplicate(d) =>
      var j: nat :| DuplicateAt(ps, j, d);
      assert ps[..|ps|] == ps;
      if Distinct(ps) { PrefixDistinct(ps, j + 1, |ps|); }
    case Planned(waves) =>
      var nodes := PlanNodes(ps, waves);
      assert Level(GraphOf(ps), |waves|) == {} by { SettledGrows(GraphOf(ps), |waves| + 1, |waves| + 1); }
      EmptyLevelIsFinal(GraphOf(ps), |waves|);
    case Cycle(_) =>
  }

  ghost predicate RepeatsAt(ps: seq<Resource>, j: nat) {
    j < |ps| && exists i :: 0 <= i < j && SameIdentity(ps[i], ps[j])
  }

  /** The duplicate reported is the first resource whose identity an earlier one has. */
  lemma DuplicateIsFirst(ps: seq<Resource>, r: Resource)
    requires FirstDuplicate(ps, r)
    ensures exists j: nat :: RepeatsAt(ps, j) && ps[j] == r && forall b: nat :: b < j ==> !RepeatsAt(ps, b)
  {
    var j: nat :| DuplicateAt(ps, j, r);
    forall b: nat | b < j ensures !RepeatsAt(ps, b) { NoRepeatYet(ps, j, b); }
    FirstRepeat(ps, j);
  }

  lemma NoRepeatYet(ps: seq<Resource>, j: nat, b: nat)
    requires b < j <= |ps| && Distinct(ps[..j])
    ensures !RepeatsAt(ps, b)
  {
    forall i | 0 <= i < b ensures !SameIdentity(ps[i], ps[b]) {
      assert ps[..j][i] == ps[i] && ps[..j][b] == ps[b];
    }
  }

  lemma FirstRepeat(ps: seq<Resource>, j: nat)
    requires j < |ps| && Distinct(ps[..j]) && !Distinct(ps[..j + 1])
    ensures RepeatsAt(ps, j)
  {
    forall a, b | 0 <= a < b < j ensures KeyOf(ps[a]) != KeyOf(ps[b]) {
      assert ps[..j][a] == ps[a] && ps[..j][b] == ps[b];
    }
    var i, l :| 0 <= i < l < j + 1 && KeyOf(ps[..j + 1][i]) == KeyOf(ps[..j + 1][l]);
    assert SameIdentity(ps[i], ps[j]);
  }

  /** With distinct labels, two runs of Build on the same manifests return the same result. */
  lemma BuildIsDeterministic(ps: seq<Resource>, a: Result, b: Result)
    requires LabelsDistinct(ps) && ResultOk(ps, a) && ResultOk(ps, b)
    ensures a == b
  {
    KindIsDetermined(ps, a);
    KindIsDetermined(ps, b);
    match a
    case Duplicate(r) => FirstDuplicatesAgree(ps, r, b.r);
    case Planned(waves) => PlansAgree(ps, waves, b.waves);
    case Cycle(stuck) => StuckReportsAgree(ps, stuck, b.stuck);
  }

  // --- labels ---

  /** One kind continues the other past a slash, and the names make up for it. */
  ghost predicate Shifted(a: Resource, b: Resource) {
    exists mid :: a.kind == b.kind + "/" + mid && b.name == mid + "/" + a.name
  }

  /** Two resources a reader of labels cannot tell apart: same kind and name, or a slash that could end either kind. */
  ghost predicate Confusable(a: Resource, b: Resource) {
    (a.kind == b.kind && a.name == b.name) || Shifted(a, b) || Shifted(b, a)
  }

  lemma LongerKindIsShifted(a: Resource, b: Resource)
    requires |a.kind| > |b.kind| && LabelOf(a) == LabelOf(b)
    ensures Shifted(a, b)
  {
    var s, n := LabelOf(a), |b.kind|;
    assert s[..n] == b.kind && s[..n] == a.kind[..n];
    assert s[n] == '/' && a.kind[n] == s[n];
    var mid := a.kind[n + 1..];
    assert a.kind == b.kind + "/" + mid;
    assert s[n + 1..] == b.name && s[n + 1..] == mid + "/" + a.name;
  }

  lemma ShiftedSharesLabel(a: Resource, b: Resource)
    requires Shifted(a, b)
    ensures LabelOf(a) == LabelOf(b)
  {
    var mid :| a.kind == b.kind + "/" + mid && b.name == mid + "/" + a.name;
    assert LabelOf(a) == b.kind + "/" + (mid + "/" + a.name);
  }

  lemma SameLabelIff(a: Resource, b: Resource)
    ensures LabelOf(a) == LabelOf(b) <==> Confusable(a, b)
  {
    if Shifted(a, b) { ShiftedSharesLabel(a, b); }
    if Shifted(b, a) { ShiftedSharesLabel(b, a); }
    if LabelOf(a) == LabelOf(b) {
      if |a.kind| > |b.kind| {
        LongerKindIsShifted(a, b);
      } else if |b.kind| > |a.kind| {
        LongerKindIsShifted(b, a);
      } else {
        assert LabelOf(a)[..|a.kind|] == a.kind && LabelOf(b)[..|a.kind|] == b.kind;
        assert LabelOf(a)[|a.kind| + 1..] == a.name && LabelOf(b)[|a.kind| + 1..] == b.name;
      }
    }
  }

  /** Kinds without a slash leave only the plain case. */
  lemma ConfusableWithoutSlashIff(a: Resource, b: Resource)
    requires '/' !in a.kind && '/' !in b.kind
    ensures Confusable(a, b) <==> a.kind == b.kind && a.name == b.name
  {
    NotShifted(a, b);
    NotShifted(b, a);
  }

  lemma NotShifted(a: Resource, b: Resource)
    requires '/' !in a.kind
    ensures !Shifted(a, b)
  {
    forall mid ensures a.kind != b.kind + "/" + mid {
      assert (b.kind + "/" + mid)[|b.kind|] == '/';
    }
  }

  lemma DepKeyIsResource(ps: seq<Resource>, r: Resource, k: Key)
    requires Distinct(ps) && r in ps && k in DepKeysOf(ps, r)
    ensures WaitsFor(ps, r, Find(ps, k))
  {
    var j :| 0 <= j < |r.refs| && RefKey(r.refs[j]) == k;
    assert r.refs[j] in r.refs && Names(r.refs[j], Find(ps, k));
  }

  lemma ResourceIsDepKey(ps: seq<Resource>, r: Resource, d: Resource) returns (i: nat)
    requires Distinct(ps) && r in ps && WaitsFor(ps, r, d)
    ensures i < |DepKeysOf(ps, r)| && DepKeysOf(ps, r)[i] == KeyOf(d) && DepLabels(ps, r)[i] == LabelOf(d)
  {
    var ref :| ref in r.refs && Names(ref, d);
    assert RefKey(ref) == KeyOf(d);
    var j :| 0 <= j < |r.refs| && r.refs[j] == ref;
    if KeyOf(d) == KeyOf(r) { SameKeySameResource(ps, d, r); }
    assert KeyOf(d) in DepKeysOf(ps, r);
    i :| 0 <= i < |DepKeysOf(ps, r)| && DepKeysOf(ps, r)[i] == KeyOf(d);
    SameKeySameResource(ps, Find(ps, KeyOf(d)), d);
  }

  /** Two dependencies of r that a reader of labels cannot tell apart. */
  ghost predicate Clash(ps: seq<Resource>, r: Resource, a: Resource, b: Resource) {
    WaitsFor(ps, r, a) && WaitsFor(ps, r, b) && a != b && Confusable(a, b)
  }

  lemma ClashRepeatsLabel(ps: seq<Resource>, r: Resource, a: Resource, b: Resource)
    requires Distinct(ps) && r in ps && Clash(ps, r, a, b)
    ensures !NoDuplicates(DepLabels(ps, r))
  {
    var i := ResourceIsDepKey(ps, r, a);
    var j := ResourceIsDepKey(ps, r, b);
    SameLabelIff(a, b);
    if i == j { SameKeySameResource(ps, a, b); }
    assert DepLabels(ps, r)[i] == DepLabels(ps, r)[j];
  }

  lemma RepeatedLabelClashes(ps: seq<Resource>, r: Resource)
    requires Distinct(ps) && r in ps && !NoDuplicates(DepLabels(ps, r))
    ensures exists a, b :: Clash(ps, r, a, b)
  {
    var ks, ls := DepKeysOf(ps, r), DepLabels(ps, r);
    var i, j :| 0 <= i < j < |ls| && ls[i] == ls[j];
    assert ks[i] in ks && ks[j] in ks && ks[i] != ks[j];
    var a, b := Find(ps, ks[i]), Find(ps, ks[j]);
    DepKeyIsResource(ps, r, ks[i]);
    DepKeyIsResource(ps, r, ks[j]);
    SameLabelIff(a, b);
    assert Clash(ps, r, a, b);
  }

  lemma PermutationRepeats(a: seq<string>, b: seq<string>)
    requires multiset(a) == multiset(b)
    ensures NoDuplicates(a) <==> NoDuplicates(b)
  {
    RepeatIsCounted(a);
    RepeatIsCounted(b);
  }

  lemma RepeatIsCounted(a: seq<string>)
    ensures NoDuplicates(a) <==> forall x :: multiset(a)[x] <= 1
  {
    if NoDuplicates(a) {
      DistinctByCount(a);
    } else {
      var i, j :| 0 <= i < j < |a| && a[i] == a[j];
      assert a == a[..i] + [a[i]] + a[i + 1..j] + [a[j]] + a[j + 1..];
      assert multiset(a)[a[i]] >= 2;
    }
  }

  lemma PlacedNodeIsOk(ps: seq<Resource>, waves: seq<seq<Node>>, n: nat, i: nat)
    requires Distinct(ps) && PlanFor(ps, waves) && n < |waves| && i < |waves[n]|
    ensures waves[n][i].resource in ps && NodeOk(ps, waves[n][i])
  {
    var nodes := PlanNodes(ps, waves);
    assert IsWave(Level(GraphOf(ps), n), nodes, waves[n]);
  }

  /** The spec names l, outside the set. */
  ghost predicate LeavesSet(ps: seq<Resource>, r: Resource, l: string) {
    exists ref :: ref in r.refs && ref.kind + "/" + ref.name == l && forall d :: d in ps ==> !Names(ref, d)
  }

  function LabelTexts(ds: seq<Resource>): (ls: seq<string>)
    ensures |ls| == |ds| && forall i :: 0 <= i < |ds| ==> ls[i] == ds[i].kind + "/" + ds[i].name
  {
    seq(|ds|, i requires 0 <= i < |ds| => LabelOf(ds[i]))
  }

  /** `ds` lists what r waits for, each resource once. */
  ghost predicate ListsDeps(ps: seq<Resource>, r: Resource, ds: seq<Resource>) {
    && (forall d :: d in ds <==> WaitsFor(ps, r, d))
    && forall i, j :: 0 <= i < j < |ds| ==> ds[i] != ds[j]
  }

  lemma DepsListed(ps: seq<Resource>, r: Resource) returns (ds: seq<Resource>)
    requires Distinct(ps) && r in ps
    ensures ListsDeps(ps, r, ds) && LabelTexts(ds) == DepLabels(ps, r)
  {
    var ks := DepKeysOf(ps, r);
    ds := seq(|ks|, i requires 0 <= i < |ks| => assert ks[i] in ks; Find(ps, ks[i]));
    forall d ensures d in ds <==> WaitsFor(ps, r, d) {
      if d in ds {
        var i :| 0 <= i < |ds| && ds[i] == d;
        assert ks[i] in ks;
        DepKeyIsResource(ps, r, ks[i]);
      }
      if WaitsFor(ps, r, d) {
        var i := ResourceIsDepKey(ps, r, d);
        SameKeySameResource(ps, ds[i], d);
      }
    }
    forall i, j | 0 <= i < j < |ds| ensures ds[i] != ds[j] {
      assert KeyOf(ds[i]) == ks[i] && KeyOf(ds[j]) == ks[j];
    }
  }

  lemma ExternalIff(ps: seq<Resource>, r: Resource, l: string)
    requires Distinct(ps) && r in ps
    ensures l in Externals(KeyOf(r), r.refs, KeySet(ps)) <==> LeavesSet(ps, r, l)
  {
    if l in Externals(KeyOf(r), r.refs, KeySet(ps)) {
      var j :| 0 <= j < |r.refs| && r.refs[j].kind + "/" + r.refs[j].name == l && RefKey(r.refs[j]) !in KeySet(ps);
      forall d | d in ps ensures !Names(r.refs[j], d) { assert KeyOf(d) in KeySet(ps); }
      assert r.refs[j] in r.refs;
    }
    if LeavesSet(ps, r, l) {
      var ref :| ref in r.refs && ref.kind + "/" + ref.name == l && forall d :: d in ps ==> !Names(ref, d);
      var j :| 0 <= j < |r.refs| && r.refs[j] == ref;
      assert RefKey(ref) !in KeySet(ps) && RefKey(ref) != KeyOf(r) by {
        forall d | d in ps ensures KeyOf(d) != RefKey(ref) { assert !Names(ref, d); }
      }
    }
  }

  /** What a planned node says: its external labels are those of the references that leave the set, once each, and its
      dependency labels are those of the resources it waits for, one for each; both in text order. */
  lemma NodeReads(ps: seq<Resource>, waves: seq<seq<Node>>, n: nat, i: nat) returns (ds: seq<Resource>)
    requires Distinct(ps) && PlanFor(ps, waves) && n < |waves| && i < |waves[n]|
    ensures
      var node := waves[n][i];
      && (forall l :: l in node.external <==> LeavesSet(ps, node.resource, l))
      && NoDuplicates(node.external) && InTextOrder(node.external)
      && ListsDeps(ps, node.resource, ds)
      && multiset(node.deps) == multiset(LabelTexts(ds)) && InTextOrder(node.deps)
  {
    PlacedNodeIsOk(ps, waves, n, i);
    var node := waves[n][i];
    var ls := Externals(KeyOf(node.resource), node.resource.refs, KeySet(ps));
    ds := DepsListed(ps, node.resource);
    ByTextIsInTextOrder(node.deps);
    ByTextIsInTextOrder(node.external);
    PermutationRepeats(node.external, ls);
    forall l ensures l in node.external <==> LeavesSet(ps, node.resource, l) {
      assert l in node.external <==> l in multiset(node.external);
      assert l in ls <==> l in multiset(ls);
      ExternalIff(ps, node.resource, l);
    }
  }

  /** The nodes of a wave stand in the order of their labels. */
  lemma WaveInLabelOrder(ps: seq<Resource>, waves: seq<seq<Node>>, n: nat, i: nat, j: nat)
    requires Distinct(ps) && PlanFor(ps, waves) && n < |waves| && i < j < |waves[n]|
    ensures
      var a, b := waves[n][i].resource, waves[n][j].resource;
      AtMost(a.kind + "/" + a.name, b.kind + "/" + b.name)
  {
    var nodes := PlanNodes(ps, waves);
    WaveIsSorted(Level(GraphOf(ps), n), nodes, waves[n]);
    LabelsInOrder(waves[n], i, j);
  }

  lemma WaveIsSorted(level: set<Key>, nodes: map<Key, Node>, wave: seq<Node>)
    requires IsWave(level, nodes, wave)
    ensures SortedBy(wave, Display)
  {
  }

  lemma LabelsInOrder(wave: seq<Node>, i: nat, j: nat)
    requires SortedBy(wave, Display) && i < j < |wave|
    ensures
      var a, b := wave[i].resource, wave[j].resource;
      AtMost(a.kind + "/" + a.name, b.kind + "/" + b.name)
  {
    var display := Display;
    assert AtMost(display(wave[i]), display(wave[j]));
  }

  /** The dependency labels of a planned node are free of repeats exactly when no two of the resources it waits for are
      confusable: the list is de-duplicated by identity, not by label. */
  lemma DepLabelsRepeatIff(ps: seq<Resource>, waves: seq<seq<Node>>, n: nat, i: nat)
    requires Distinct(ps) && PlanFor(ps, waves) && n < |waves| && i < |waves[n]|
    ensures NoDuplicates(waves[n][i].deps) <==> !exists a, b :: Clash(ps, waves[n][i].resource, a, b)
  {
    PlacedNodeIsOk(ps, waves, n, i);
    var r := waves[n][i].resource;
    PermutationRepeats(waves[n][i].deps, DepLabels(ps, r));
    if a, b :| Clash(ps, r, a, b) {
      ClashRepeatsLabel(ps, r, a, b);
    } else if !NoDuplicates(DepLabels(ps, r)) {
      RepeatedLabelClashes(ps, r);
    }
  }

  /** A schedule that puts every dependency strictly earlier shows that nothing is circular. */
  lemma ScheduleRulesOutCycles(g: Graph, rank: map<Key, nat>)
    requires g.Valid() && Respects(g, rank)
    ensures Acyclic(g)
  {
    forall c | c in g.nodes && OnCycle(g, c) ensures false {
      var p :| ChainFrom(g, c, p) && |p| >= 2 && p[|p| - 1] == c;
      RanksDescend(g, rank, p, |p| - 1);
    }
  }

  lemma {:induction false} RanksDescend(g: Graph, rank: map<Key, nat>, p: seq<Key>, j: nat)
    requires g.Valid() && Respects(g, rank) && IsChain(g, p) && j < |p|
    ensures rank[p[j]] + j <= rank[p[0]]
  {
    if j > 0 {
      RanksDescend(g, rank, p, j - 1);
      assert p[j - 1 + 1] in g.deps[p[j - 1]];
    }
  }

  const OLD_APP := Resource("v1", "App", "a", [])
  const NEW_APP := Resource("v2", "App", "a", [])
  const SITE := Resource("v1", "Site", "s", [Ref("v1", "App", "a"), Ref("v2", "App", "a")])

  lemma OnlyOneWaits(ps: seq<Resource>, c: Resource)
    requires forall r :: r in ps && r != c ==> r.refs == []
    ensures Acyclic(GraphOf(ps))
  {
    var g := GraphOf(ps);
    var rank: map<Key, nat> := map k | k in g.nodes :: if k == KeyOf(c) then 1 else 0;
    forall k, d | k in g.nodes && d in g.deps[k] ensures rank[d] < rank[k] {
      assert DependsOn(ps, k, d);
      var r, ref :| r in ps && KeyOf(r) == k && ref in r.refs && RefKey(ref) == d;
      assert r == c;
    }
    ScheduleRulesOutCycles(g, rank);
  }

  lemma ExampleIsAcyclic()
    ensures Distinct([OLD_APP, NEW_APP, SITE]) && Acyclic(GraphOf([OLD_APP, NEW_APP, SITE]))
  {
    assert KeyOf(OLD_APP) == "v1|App|a" && KeyOf(NEW_APP) == "v2|App|a" && KeyOf(SITE) == "v1|Site|s";
    assert KeyOf(OLD_APP)[1] != KeyOf(NEW_APP)[1] && KeyOf(OLD_APP)[3] != KeyOf(SITE)[3]
           && KeyOf(NEW_APP)[1] != KeyOf(SITE)[1];
    OnlyOneWaits([OLD_APP, NEW_APP, SITE], SITE);
  }

  /** For example, in the plan of these three the last node names "App/a" twice: its dependencies differ only in their
      apiVersion. */
  lemma OneLabelTwice(r: Result)
    requires ResultOk([OLD_APP, NEW_APP, SITE], r)
    ensures r.Planned? && exists n: nat, i: nat :: At(r.waves, n, i, SITE) && !NoDuplicates(r.waves[n][i].deps)
  {
    var ps := [OLD_APP, NEW_APP, SITE];
    ExampleIsAcyclic();
    KindIsDetermined(ps, r);
    EveryResourceOnce(ps, r.waves, SITE);
    var n: nat, i: nat :| At(r.waves, n, i, SITE);
    assert RefKey(SITE.refs[0]) == KeyOf(OLD_APP) && RefKey(SITE.refs[1]) == KeyOf(NEW_APP);
    assert SITE.refs[0] in SITE.refs && SITE.refs[1] in SITE.refs && OLD_APP in ps && NEW_APP in ps;
    assert OLD_APP.apiVersion[1] != NEW_APP.apiVersion[1];
    assert Names(SITE.refs[0], OLD_APP) && Names(SITE.refs[1], NEW_APP);
    assert Clash(ps, SITE, OLD_APP, NEW_APP);
    DepLabelsRepeatIff(ps, r.waves, n, i);
  }

  // --- identity ---

  lemma OtherTriple(a: string, k: string, n: string) returns (a': string, k': string, n': string)
    requires '|' in a || '|' in k || '|' in n
    ensures MakeKey(a', k', n') == MakeKey(a, k, n) && a' != a
  {
    if '|' in a {
      var i :| 0 <= i < |a| && a[i] == '|';
      assert a[..i] + "|" + a[i + 1..] == a;
      return a[..i], a[i + 1..] + "|" + k, n;
    } else if '|' in k {
      var i :| 0 <= i < |k| && k[i] == '|';
      assert k[..i] + "|" + k[i + 1..] == k;
      return a + "|" + k[..i], k[i + 1..], n;
    } else {
      var i :| 0 <= i < |n| && n[i] == '|';
      assert n[..i] + "|" + n[i + 1..] == n;
      return a + "|" + k, n[..i], n[i + 1..];
    }
  }

  lemma NoOtherTriple(a: string, k: string, n: string, a': string, k': string, n': string)
    requires '|' !in a && '|' !in k && '|' !in n && MakeKey(a', k', n') == MakeKey(a, k, n)
    ensures a' == a && k' == k && n' == n
  {
    BarsInKey(a, k, n);
    BarsInKey(a', k', n');
    assert MakeKey(a, k, n) == a + ("|" + (k + ("|" + n))) && MakeKey(a', k', n') == a' + ("|" + (k' + ("|" + n')));
    CutAtBar(a, k + ("|" + n), a', k' + ("|" + n'));
    CutAtBar(k, n, k', n');
  }

  /** The key stands for the whole (apiVersion, kind, name) triple exactly when none of the three
      contains the separator. */
  lemma KeyIdentifiesTriple(a: string, k: string, n: string)
    ensures (forall a', k', n' :: MakeKey(a', k', n') == MakeKey(a, k, n) ==> a' == a && k' == k && n' == n)
            <==> '|' !in a && '|' !in k && '|' !in n
  {
    if '|' in a || '|' in k || '|' in n {
      var a', k', n' := OtherTriple(a, k, n);
    } else {
      forall a', k', n' | MakeKey(a', k', n') == MakeKey(a, k, n) ensures a' == a && k' == k && n' == n {
        NoOtherTriple(a, k, n, a', k', n');
      }
    }
  }

  function Bars(s: string): nat {
    if s == [] then 0 else (if s[0] == '|' then 1 else 0) + Bars(s[1..])
  }

  lemma {:induction false} BarsAdd(s: string, t: string)
    ensures Bars(s + t) == Bars(s) + Bars(t)
    ensures Bars(s) == 0 <==> '|' !in s
  {
    if s == [] {
      assert s + t == t;
    } else {
      assert (s + t)[1..] == s[1..] + t && s == [s[0]] + s[1..];
      BarsAdd(s[1..], t);
    }
  }

  lemma BarsInKey(a: string, k: string, n: string)
    ensures Bars(MakeKey(a, k, n)) == Bars(a) + Bars(k) + Bars(n) + 2
    ensures Bars(a) + Bars(k) + Bars(n) == 0 <==> '|' !in a && '|' !in k && '|' !in n
  {
    BarsAdd(a + "|" + k + "|", n);
    BarsAdd(a + "|" + k, "|");
    BarsAdd(a + "|", k);
    BarsAdd(a, "|");
    BarsAdd(k, n);
    BarsAdd(n, a);
  }

  lemma CutAtBar(a: string, r: string, a': string, r': string)
    requires '|' !in a && '|' !in a' && a + ("|" + r) == a' + ("|" + r')
    ensures a == a' && r == r'
  {
    var s := a + ("|" + r);
    assert s[|a|] == '|' && s[|a'|] == '|';
    assert forall i :: 0 <= i < |a| ==> s[i] == a[i] && a[i] in a;
    assert forall i :: 0 <= i < |a'| ==> s[i] == a'[i] && a'[i] in a';
    assert a == s[..|a|] && a' == s[..|a'|];
    assert r == s[|a| + 1..] && r' == s[|a'| + 1..];
  }
}

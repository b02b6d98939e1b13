// The batch planner: identities, dependency edges, and the level-by-level
// topological sort, with map iteration in an arbitrary order.

module Planner {
  import opened Text
  import opened DependencyGraph

  datatype Ref = Ref(apiVersion: string, kind: string, name: string)

  /** A manifest; `refs` is what the reference collector finds in its spec. */
  datatype Resource = Resource(apiVersion: string, kind: string, name: string, refs: seq<Ref>)

  datatype Manifest = Nil | Some(r: Resource)

  datatype Node = Node(resource: Resource, deps: seq<string>, external: seq<string>)

  function MakeKey(apiVersion: string, kind: string, name: string): Key {
    apiVersion + "|" + kind + "|" + name
  }

  function KeyOf(r: Resource): Key { MakeKey(r.apiVersion, r.kind, r.name) }
  function RefKey(ref: Ref): Key { MakeKey(ref.apiVersion, ref.kind, ref.name) }
  function LabelOf(r: Resource): string { r.kind + "/" + r.name }
  function Display(n: Node): string { LabelOf(n.resource) }
  function Same(s: string): string { s }

  // --- the sort by waves ---

  ghost predicate NoDuplicates(ks: seq<Key>) { forall i, j :: 0 <= i < j < |ks| ==> ks[i] != ks[j] }

  /** `ks` lists a finite set once each. */
  ghost predicate Lists(ks: seq<Key>, s: set<Key>) {
    (forall k :: k in ks <==> k in s) && NoDuplicates(ks)
  }

  ghost predicate IsWave(level: set<Key>, nodes: map<Key, Node>, wave: seq<Node>) {
    && (forall i :: 0 <= i < |wave| ==> KeyOf(wave[i].resource) in nodes && wave[i] == nodes[KeyOf(wave[i].resource)])
    && (forall k :: k in level <==> exists i :: 0 <= i < |wave| && KeyOf(wave[i].resource) == k)
    && (forall i, j :: 0 <= i < j < |wave| ==> KeyOf(wave[i].resource) != KeyOf(wave[j].resource))
    && SortedBy(wave, Display)
  }

  /** The whole plan: the non-empty levels in order, until everything has settled. */
  ghost predicate IsPlan(g: Graph, nodes: map<Key, Node>, waves: seq<seq<Node>>)
    requires g.Valid()
  {
    WavesSoFar(g, nodes, waves) && Settled(g, |waves|) == g.nodes
  }

  ghost predicate WavesSoFar(g: Graph, nodes: map<Key, Node>, waves: seq<seq<Node>>)
    requires g.Valid()
  {
    forall n :: 0 <= n < |waves| ==> waves[n] != [] && IsWave(Level(g, n), nodes, waves[n])
  }

  /** The reported resources are, by label, exactly the ones that lead to a cycle. */
  ghost predicate IsStuckReport(g: Graph, nodes: map<Key, Node>, stuck: seq<string>) {
    exists ks ::
      && Lists(ks, CycleBound(g))
      && (forall k :: k in ks ==> k in nodes)
      && IsSortOf(stuck, Labels(nodes, ks), Same)
  }

  function Labels(nodes: map<Key, Node>, ks: seq<Key>): (ls: seq<string>)
    requires forall k :: k in ks ==> k in nodes
    ensures |ls| == |ks|
  {
    seq(|ks|, i requires 0 <= i < |ks| => Display(nodes[ks[i]]))
  }

  datatype Waves = Ordered(waves: seq<seq<Node>>) | Stuck(labels: seq<string>)

  /** The graph topoWaves is given, as it reads it: a missing entry means no dependencies. */
  function DepsOf(deps: map<Key, seq<Key>>, k: Key): seq<Key> {
    if k in deps then deps[k] else []
  }

  ghost predicate Represents(g: Graph, nodes: map<Key, Node>, deps: map<Key, seq<Key>>) {
    && g.Valid() && g.nodes == nodes.Keys
    && (forall k :: k in nodes ==> KeyOf(nodes[k].resource) == k)
    && (forall k :: k in nodes ==> Lists(DepsOf(deps, k), g.deps[k]))
  }

  /** The reverse edges of the nodes visited so far, and of the first `seen` dependencies of the one being visited. */
  ghost predicate ReverseEdges(g: Graph, dependents: map<Key, seq<Key>>, done: set<Key>, k: Key, seen: seq<Key>)
    requires done <= g.deps.Keys
  {
    && (forall d, x :: x in DepsOf(dependents, d) <==> (x in done && d in g.deps[x]) || (x == k && d in seen))
    && (forall d :: NoDuplicates(DepsOf(dependents, d)))
  }

  lemma AddReverseEdge(g: Graph, dependents: map<Key, seq<Key>>, done: set<Key>, k: Key, seen: seq<Key>, d: Key)
    requires done <= g.deps.Keys && ReverseEdges(g, dependents, done, k, seen) && k !in done && d !in seen
    ensures ReverseEdges(g, dependents[d := DepsOf(dependents, d) + [k]], done, k, seen + [d])
  {
    var t := dependents[d := DepsOf(dependents, d) + [k]];
    forall e ensures NoDuplicates(DepsOf(t, e)) {
      assert NoDuplicates(DepsOf(dependents, e));
      assert k !in DepsOf(dependents, d);
    }
    forall e, x ensures x in DepsOf(t, e) <==> (x in done && e in g.deps[x]) || (x == k && e in seen + [d]) {
      assert x in DepsOf(dependents, e) <==> (x in done && e in g.deps[x]) || (x == k && e in seen);
    }
  }

  /** The reverse edges of exactly the nodes in `done`. */
  ghost predicate Reversed(g: Graph, dependents: map<Key, seq<Key>>, done: set<Key>)
    requires done <= g.deps.Keys
  {
    && (forall d, x :: x in DepsOf(dependents, d) <==> x in done && d in g.deps[x])
    && (forall d :: NoDuplicates(DepsOf(dependents, d)))
  }

  lemma FinishNode(g: Graph, dependents: map<Key, seq<Key>>, done: set<Key>, k: Key, ds: seq<Key>)
    requires done <= g.deps.Keys && k in g.deps && ReverseEdges(g, dependents, done, k, ds)
    requires forall d :: d in ds <==> d in g.deps[k]
    ensures Reversed(g, dependents, done + {k})
  {
    forall d, x ensures x in DepsOf(dependents, d) <==> x in done + {k} && d in g.deps[x] {
      assert x in DepsOf(dependents, d) <==> (x in done && d in g.deps[x]) || (x == k && d in ds);
    }
  }

  /** The dependencies of the next node to visit, with its in-degree already counted. */
  method ReverseEdgesOf(ghost g: Graph, ghost done: set<Key>, k: Key, ds: seq<Key>, before: map<Key, seq<Key>>)
    returns (dependents: map<Key, seq<Key>>)
    requires done <= g.deps.Keys && k in g.deps && k !in done && Lists(ds, g.deps[k])
    requires Reversed(g, before, done)
    ensures Reversed(g, dependents, done + {k})
  {
    dependents := before;
    for i := 0 to |ds|
      invariant ReverseEdges(g, dependents, done, k, ds[..i])
    {
      AddReverseEdge(g, dependents, done, k, ds[..i], ds[i]);
      assert ds[..i + 1] == ds[..i] + [ds[i]];
      dependents := dependents[ds[i] := DepsOf(dependents, ds[i]) + [k]];
    }
    assert ds[..|ds|] == ds;
    FinishNode(g, dependents, done, k, ds);
  }

  /** In-degrees and reverse edges, with the map iterated in any order. */
  method Edges(ghost g: Graph, nodes: map<Key, Node>, deps: map<Key, seq<Key>>)
    returns (indegree: map<Key, int>, dependents: map<Key, seq<Key>>)
    requires g.deps.Keys == nodes.Keys && forall k :: k in nodes ==> Lists(DepsOf(deps, k), g.deps[k])
    ensures forall k :: k in g.deps ==> k in indegree && indegree[k] == |g.deps[k]|
    ensures Reversed(g, dependents, g.deps.Keys)
  {
    indegree, dependents := map[], map[];
    var todo := nodes.Keys;
    ghost var done: set<Key> := {};
    while todo != {}
      invariant todo <= nodes.Keys && done == nodes.Keys - todo
      invariant forall k :: k in done ==> k in indegree && indegree[k] == |g.deps[k]|
      invariant Reversed(g, dependents, done)
      decreases todo
    {
      var k :| k in todo;
      var ds := DepsOf(deps, k);
      ListsSize(ds, g.deps[k]);
      indegree := indegree[k := |ds|];
      dependents := ReverseEdgesOf(g, done, k, ds, dependents);
      todo, done := todo - {k}, done + {k};
    }
    assert done == g.deps.Keys;
  }

  lemma {:induction false} ListsSize(ks: seq<Key>, s: set<Key>)
    requires Lists(ks, s)
    ensures |ks| == |s|
  {
    if ks == [] {
      assert s == {};
    } else {
      var last := ks[|ks| - 1];
      assert last in ks;
      ListsSize(ks[..|ks| - 1], s - {last});
    }
  }

  lemma ListsPermuted(ks: seq<Key>, ls: seq<Key>, s: set<Key>)
    requires Lists(ks, s) && multiset(ls) == multiset(ks)
    ensures Lists(ls, s)
  {
    DistinctByCount(ks);
    DistinctByCount(ls);
    forall k ensures k in ls <==> k in s {
      assert k in ls <==> k in multiset(ls);
      assert k in ks <==> k in multiset(ks);
    }
  }

  // --- releasing the dependents of one wave ---

  /** How many of the dependencies `ds` have not been applied. */
  ghost function Missing(ds: seq<Key>, applied: set<Key>): nat {
    if ds == [] then 0
    else Missing(ds[..|ds| - 1], applied) + if ds[|ds| - 1] in applied then 0 else 1
  }

  lemma {:induction false} MissingNone(ds: seq<Key>, applied: set<Key>)
    ensures Missing(ds, applied) == 0 <==> forall d :: d in ds ==> d in applied
    ensures applied == {} ==> Missing(ds, applied) == |ds|
  {
    if ds != [] {
      assert ds == ds[..|ds| - 1] + [ds[|ds| - 1]];
      MissingNone(ds[..|ds| - 1], applied);
    }
  }

  lemma {:induction false} MissingDrops(ds: seq<Key>, applied: set<Key>, k: Key)
    requires NoDuplicates(ds) && k !in applied
    ensures Missing(ds, applied + {k}) == Missing(ds, applied) - if k in ds then 1 else 0
  {
    if ds != [] {
      assert ds == ds[..|ds| - 1] + [ds[|ds| - 1]];
      MissingDrops(ds[..|ds| - 1], applied, k);
    }
  }

  /** The counters are right for the nodes applied so far. */
  ghost predicate CountersOk(nodes: set<Key>, deps: map<Key, seq<Key>>, applied: set<Key>, indegree: map<Key, int>) {
    forall d :: d in nodes ==> d in indegree && indegree[d] == Missing(DepsOf(deps, d), applied)
  }

  /** The next frontier lists the nodes whose counter has come down to zero since `start`. */
  ghost predicate NextOk(nodes: set<Key>, start: map<Key, int>, indegree: map<Key, int>, next: seq<Key>) {
    && (forall d :: d in next <==> d in nodes && d in start && start[d] > 0 && d in indegree && indegree[d] == 0)
    && NoDuplicates(next)
  }

  /** `ds` lists the nodes that depend directly on k. */
  ghost predicate DependentsOf(nodes: set<Key>, deps: map<Key, seq<Key>>, k: Key, ds: seq<Key>) {
    && (forall d :: d in ds <==> d in nodes && k in DepsOf(deps, d))
    && NoDuplicates(ds)
  }

  lemma DependentsAreWaiting(nodes: set<Key>, deps: map<Key, seq<Key>>, applied: set<Key>, k: Key,
                            ds: seq<Key>, indegree: map<Key, int>)
    requires CountersOk(nodes, deps, applied, indegree) && DependentsOf(nodes, deps, k, ds) && k !in applied
    ensures forall d :: d in ds ==> d in nodes && indegree[d] > 0
  {
    forall d | d in ds ensures indegree[d] > 0 { MissingNone(DepsOf(deps, d), applied); }
  }

  lemma NodeReleased(nodes: set<Key>, deps: map<Key, seq<Key>>, applied: set<Key>, k: Key, ds: seq<Key>,
                     before: map<Key, int>, indegree: map<Key, int>)
    requires CountersOk(nodes, deps, applied, before) && DependentsOf(nodes, deps, k, ds) && k !in applied
    requires forall d :: d in nodes ==> NoDuplicates(DepsOf(deps, d))
    requires Dropped(nodes, before, indegree, ds, |ds|)
    ensures CountersOk(nodes, deps, applied + {k}, indegree)
  {
    forall d | d in nodes ensures indegree[d] == Missing(DepsOf(deps, d), applied + {k}) {
      MissingDrops(DepsOf(deps, d), applied, k);
    }
  }

  /** `after` is `before` with the counter of each of the first n dependents decremented. */
  ghost predicate Dropped(nodes: set<Key>, before: map<Key, int>, after: map<Key, int>, ds: seq<Key>, n: nat)
    requires n <= |ds|
  {
    && (forall d :: d in nodes ==> d in before && d in after && after[d] <= before[d])
    && (forall d :: d in nodes && d !in ds ==> after[d] == before[d])
    && (forall i :: 0 <= i < n && ds[i] in nodes ==> after[ds[i]] == before[ds[i]] - 1)
    && (forall i :: n <= i < |ds| && ds[i] in nodes ==> after[ds[i]] == before[ds[i]])
  }

  lemma DropOne(nodes: set<Key>, before: map<Key, int>, after: map<Key, int>, ds: seq<Key>, n: nat)
    requires n < |ds| && Dropped(nodes, before, after, ds, n) && NoDuplicates(ds) && ds[n] in nodes
    ensures Dropped(nodes, before, after[ds[n] := after[ds[n]] - 1], ds, n + 1)
  {
  }

  lemma QueueOne(nodes: set<Key>, start: map<Key, int>, after: map<Key, int>, next: seq<Key>, d: Key)
    requires NextOk(nodes, start, after, next) && d in nodes && d in start && d in after && 0 < after[d] <= start[d]
    ensures NextOk(nodes, start, after[d := after[d] - 1], if after[d] == 1 then next + [d] else next)
  {
    assert d !in next;
    var after', next' := after[d := after[d] - 1], if after[d] == 1 then next + [d] else next;
    forall e ensures e in next' <==> e in nodes && e in start && start[e] > 0 && e in after' && after'[e] == 0 {
      assert e in next <==> e in nodes && e in start && start[e] > 0 && e in after && after[e] == 0;
    }
  }

  /** The visit of one applied node: its dependents' counters drop, those that reach zero join the next frontier. */
  method Release(ghost nodes: set<Key>, ghost start: map<Key, int>, ds: seq<Key>,
                 before: map<Key, int>, queued: seq<Key>)
    returns (indegree: map<Key, int>, next: seq<Key>)
    requires NoDuplicates(ds) && forall d :: d in ds ==> d in nodes && d in before && before[d] > 0
    requires forall d :: d in nodes ==> d in before && d in start && before[d] <= start[d]
    requires NextOk(nodes, start, before, queued)
    ensures Dropped(nodes, before, indegree, ds, |ds|)
    ensures NextOk(nodes, start, indegree, next)
  {
    indegree, next := before, queued;
    for i := 0 to |ds|
      invariant Dropped(nodes, before, indegree, ds, i)
      invariant NextOk(nodes, start, indegree, next)
    {
      var d := ds[i];
      assert d in ds;
      DropOne(nodes, before, indegree, ds, i);
      QueueOne(nodes, start, indegree, next, d);
      indegree := indegree[d := indegree[d] - 1];
      if indegree[d] == 0 {
        next := next + [d];
      }
    }
  }

  lemma DependentsOfNode(g: Graph, nodes: map<Key, Node>, deps: map<Key, seq<Key>>, dependents: map<Key, seq<Key>>,
                          k: Key)
    requires Represents(g, nodes, deps) && Reversed(g, dependents, g.deps.Keys)
    ensures DependentsOf(g.nodes, deps, k, DepsOf(dependents, k))
  {
    forall x ensures x in DepsOf(dependents, k) <==> x in g.nodes && k in DepsOf(deps, x) {
      assert x in DepsOf(dependents, k) <==> x in g.deps.Keys && k in g.deps[x];
    }
  }

  lemma CountersSettle(g: Graph, nodes: map<Key, Node>, deps: map<Key, seq<Key>>, n: nat, indegree: map<Key, int>,
                       d: Key)
    requires Represents(g, nodes, deps) && CountersOk(g.nodes, deps, Settled(g, n), indegree) && d in g.nodes
    ensures indegree[d] >= 0
    ensures indegree[d] == 0 <==> d in Settled(g, n + 1)
  {
    MissingNone(DepsOf(deps, d), Settled(g, n));
    assert Lists(DepsOf(deps, d), g.deps[d]);
  }

  lemma NextIsLevel(g: Graph, nodes: map<Key, Node>, deps: map<Key, seq<Key>>, n: nat,
                    start: map<Key, int>, indegree: map<Key, int>, next: seq<Key>)
    requires Represents(g, nodes, deps)
    requires CountersOk(g.nodes, deps, Settled(g, n), start) && CountersOk(g.nodes, deps, Settled(g, n + 1), indegree)
    requires NextOk(g.nodes, start, indegree, next)
    ensures Lists(next, Level(g, n + 1))
  {
    forall d ensures d in next <==> d in Level(g, n + 1) {
      assert d in next <==> d in g.nodes && d in start && start[d] > 0 && d in indegree && indegree[d] == 0;
      SettledGrows(g, n + 1, n + 2);
      if d in g.nodes {
        CountersSettle(g, nodes, deps, n, start, d);
        CountersSettle(g, nodes, deps, n + 1, indegree, d);
      }
    }
  }

  ghost predicate NotAbove(nodes: set<Key>, indegree: map<Key, int>, start: map<Key, int>) {
    forall d :: d in nodes ==> d in indegree && d in start && indegree[d] <= start[d]
  }

  method ReleaseNode(ghost g: Graph, ghost nodes: map<Key, Node>, ghost deps: map<Key, seq<Key>>,
                     dependents: map<Key, seq<Key>>, ghost applied: set<Key>, ghost start: map<Key, int>,
                     k: Key, before: map<Key, int>, queued: seq<Key>)
    returns (indegree: map<Key, int>, next: seq<Key>)
    requires Represents(g, nodes, deps) && Reversed(g, dependents, g.deps.Keys) && k !in applied
    requires CountersOk(g.nodes, deps, applied, before)
    requires NextOk(g.nodes, start, before, queued) && NotAbove(g.nodes, before, start)
    ensures CountersOk(g.nodes, deps, applied + {k}, indegree)
    ensures NextOk(g.nodes, start, indegree, next) && NotAbove(g.nodes, indegree, start)
  {
    var ds := DepsOf(dependents, k);
    DependentsOfNode(g, nodes, deps, dependents, k);
    DependentsAreWaiting(g.nodes, deps, applied, k, ds, before);
    indegree, next := Release(g.nodes, start, ds, before, queued);
    NodeReleased(g.nodes, deps, applied, k, ds, before, indegree);
  }

  /** One turn of the main loop: apply the whole frontier. */
  method ReleaseAll(ghost g: Graph, ghost nodes: map<Key, Node>, ghost deps: map<Key, seq<Key>>,
                    dependents: map<Key, seq<Key>>, ghost base: set<Key>, frontier: seq<Key>, start: map<Key, int>)
    returns (indegree: map<Key, int>, next: seq<Key>, ghost applied: set<Key>)
    requires Represents(g, nodes, deps) && Reversed(g, dependents, g.deps.Keys)
    requires NoDuplicates(frontier) && forall k :: k in frontier ==> k !in base
    requires CountersOk(g.nodes, deps, base, start)
    ensures forall k :: k in applied <==> k in base || k in frontier
    ensures CountersOk(g.nodes, deps, applied, indegree) && NextOk(g.nodes, start, indegree, next)
  {
    indegree, next, applied := start, [], base;
    for i := 0 to |frontier|
      invariant forall k :: k in applied <==> k in base || k in frontier[..i]
      invariant CountersOk(g.nodes, deps, applied, indegree)
      invariant NextOk(g.nodes, start, indegree, next) && NotAbove(g.nodes, indegree, start)
    {
      assert frontier[i] in frontier && frontier[i] !in frontier[..i];
      assert frontier[..i + 1] == frontier[..i] + [frontier[i]];
      indegree, next := ReleaseNode(g, nodes, deps, dependents, applied, start, frontier[i], indegree, next);
      applied := applied + {frontier[i]};
    }
    assert frontier[..|frontier|] == frontier;
  }

  lemma AppliedIsSettled(g: Graph, n: nat, frontier: seq<Key>, applied: set<Key>)
    requires g.Valid() && Lists(frontier, Level(g, n))
    requires forall k :: k in applied <==> k in Settled(g, n) || k in frontier
    ensures applied == Settled(g, n + 1)
  {
    SettledGrows(g, n, n + 1);
  }

  /** The nodes in one wave, in frontier order, before sorting. */
  function NodesAt(nodes: map<Key, Node>, ks: seq<Key>): (ns: seq<Node>)
    requires forall k :: k in ks ==> k in nodes
    ensures |ns| == |ks| && forall i :: 0 <= i < |ks| ==> ns[i] == nodes[ks[i]]
  {
    seq(|ks|, i requires 0 <= i < |ks| => nodes[ks[i]])
  }

  lemma SortedWaveIsWave(level: set<Key>, nodes: map<Key, Node>, frontier: seq<Key>, wave: seq<Node>)
    requires Lists(frontier, level) && forall k :: k in level ==> k in nodes && KeyOf(nodes[k].resource) == k
    requires IsSortOf(wave, NodesAt(nodes, frontier), Display)
    ensures IsWave(level, nodes, wave) && |wave| == |frontier|
  {
    var ns := NodesAt(nodes, frontier);
    assert |multiset(wave)| == |multiset(ns)|;
    forall i | 0 <= i < |wave|
      ensures KeyOf(wave[i].resource) in level && wave[i] == nodes[KeyOf(wave[i].resource)]
    {
      assert wave[i] in multiset(ns);
      var j :| 0 <= j < |ns| && ns[j] == wave[i];
      assert frontier[j] in frontier;
    }
    forall k | k in level ensures exists i :: 0 <= i < |wave| && KeyOf(wave[i].resource) == k {
      var j :| 0 <= j < |frontier| && frontier[j] == k;
      assert ns[j] in multiset(wave);
    }
    WaveHasNoDuplicates(nodes, frontier, wave);
  }

  lemma WaveHasNoDuplicates(nodes: map<Key, Node>, frontier: seq<Key>, wave: seq<Node>)
    requires NoDuplicates(frontier) && forall k :: k in frontier ==> k in nodes && KeyOf(nodes[k].resource) == k
    requires multiset(wave) == multiset(NodesAt(nodes, frontier))
    requires forall i :: 0 <= i < |wave| ==>
               KeyOf(wave[i].resource) in nodes && wave[i] == nodes[KeyOf(wave[i].resource)]
    ensures forall i, j :: 0 <= i < j < |wave| ==> KeyOf(wave[i].resource) != KeyOf(wave[j].resource)
  {
    var ns := NodesAt(nodes, frontier);
    forall i, j | 0 <= i < j < |ns| ensures ns[i] != ns[j] {
      assert frontier[i] in frontier && frontier[j] in frontier;
    }
    DistinctByCount(ns);
    DistinctByCount(wave);
  }

  lemma {:induction false} DistinctByCount<T>(xs: seq<T>)
    ensures (forall i, j :: 0 <= i < j < |xs| ==> xs[i] != xs[j]) <==> forall x :: multiset(xs)[x] <= 1
  {
    if xs != [] {
      var init, last := xs[..|xs| - 1], xs[|xs| - 1];
      DistinctByCount(init);
      assert xs == init + [last];
      if forall i, j :: 0 <= i < j < |xs| ==> xs[i] != xs[j] {
        assert multiset(init)[last] == 0;
      } else if forall i, j :: 0 <= i < j < |init| ==> init[i] != init[j] {
        assert last in init;
        assert multiset(xs)[last] == multiset(init)[last] + 1;
      } else {
        var x :| multiset(init)[x] > 1;
        assert multiset(xs)[x] > 1;
      }
    }
  }

  // --- topoWaves ---

  lemma FirstCounters(g: Graph, nodes: map<Key, Node>, deps: map<Key, seq<Key>>, indegree: map<Key, int>)
    requires Represents(g, nodes, deps)
    requires forall k :: k in g.deps ==> k in indegree && indegree[k] == |g.deps[k]|
    ensures CountersOk(g.nodes, deps, Settled(g, 0), indegree)
  {
    forall d | d in g.nodes ensures indegree[d] == Missing(DepsOf(deps, d), {}) {
      assert Lists(DepsOf(deps, d), g.deps[d]);
      ListsSize(DepsOf(deps, d), g.deps[d]);
      MissingNone(DepsOf(deps, d), {});
    }
  }

  /** A range over the counters keeping the keys with (or without) a zero, in the map's arbitrary order. */
  method KeysWhere(keys: set<Key>, indegree: map<Key, int>, zero: bool) returns (ks: seq<Key>)
    requires forall k :: k in keys ==> k in indegree
    ensures Lists(ks, set k | k in keys && (indegree[k] == 0) == zero)
  {
    ks := [];
    var todo := keys;
    while todo != {}
      invariant todo <= keys
      invariant forall k :: k in ks <==> k in keys && k !in todo && (indegree[k] == 0) == zero
      invariant NoDuplicates(ks)
      decreases todo
    {
      var k :| k in todo;
      if (indegree[k] == 0) == zero {
        ks := ks + [k];
      }
      todo := todo - {k};
    }
  }

  lemma FirstFrontier(g: Graph, nodes: map<Key, Node>, deps: map<Key, seq<Key>>, indegree: map<Key, int>, ks: seq<Key>)
    requires Represents(g, nodes, deps) && CountersOk(g.nodes, deps, Settled(g, 0), indegree)
    requires Lists(ks, set k | k in g.nodes && indegree[k] == 0)
    ensures Lists(ks, Level(g, 0))
  {
    forall k ensures k in ks <==> k in Level(g, 0) {
      if k in g.nodes { CountersSettle(g, nodes, deps, 0, indegree, k); }
    }
  }

  lemma Emitted(g: Graph, n: nat, frontier: seq<Key>)
    requires g.Valid() && Lists(frontier, Level(g, n))
    ensures |Settled(g, n + 1)| == |Settled(g, n)| + |frontier| <= |g.nodes|
    ensures Settled(g, n + 1) <= g.nodes
  {
    SettledGrows(g, n, n + 1);
    ListsSize(frontier, Level(g, n));
    assert Settled(g, n + 1) == Settled(g, n) + Level(g, n);
    Subsets(Settled(g, n + 1), g.nodes);
  }

  lemma Subsets(a: set<Key>, b: set<Key>)
    requires a <= b
    ensures |a| <= |b| && (|a| == |b| ==> a == b)
  {
    assert b == a + (b - a);
  }

  /** Exactly the nodes left over keep a positive counter. */
  lemma LeftOverCounters(g: Graph, nodes: map<Key, Node>, deps: map<Key, seq<Key>>, n: nat, indegree: map<Key, int>)
    requires Represents(g, nodes, deps) && CountersOk(g.nodes, deps, Settled(g, n), indegree) && Level(g, n) == {}
    ensures forall k :: k in g.nodes ==> (indegree[k] == 0 <==> !ReachesCycle(g, k))
  {
    EmptyLevelIsFinal(g, n);
    SettledGrows(g, n, n + 1);
    forall k | k in g.nodes ensures indegree[k] == 0 <==> !ReachesCycle(g, k) {
      CountersSettle(g, nodes, deps, n, indegree, k);
      assert k in Settled(g, n + 1) ==> k in Level(g, n) || k in Settled(g, n);
    }
  }

  lemma RemainingIsStuck(g: Graph, n: nat)
    requires g.Valid() && Level(g, n) == {}
    ensures |CycleBound(g)| == |g.nodes| - |Settled(g, n)|
    ensures Acyclic(g) <==> |Settled(g, n)| == |g.nodes|
    ensures Acyclic(g) <==> Settled(g, n) == g.nodes
  {
    EmptyLevelIsFinal(g, n);
    SettledGrows(g, n, n);
    Complement(Settled(g, n), CycleBound(g), g.nodes);
  }

  lemma Complement(a: set<Key>, b: set<Key>, all: set<Key>)
    requires a == all - b && b <= all
    ensures |b| == |all| - |a|
    ensures |a| == |all| <==> a == all
  {
    assert all == a + b;
  }

  method NextWave(ghost g: Graph, nodes: map<Key, Node>, ghost deps: map<Key, seq<Key>>, dependents: map<Key, seq<Key>>,
                  ghost n: nat, frontier: seq<Key>, start: map<Key, int>)
    returns (wave: seq<Node>, indegree: map<Key, int>, next: seq<Key>)
    requires Represents(g, nodes, deps) && Reversed(g, dependents, g.deps.Keys)
    requires Lists(frontier, Level(g, n)) && CountersOk(g.nodes, deps, Settled(g, n), start)
    ensures IsWave(Level(g, n), nodes, wave) && |wave| == |frontier|
    ensures CountersOk(g.nodes, deps, Settled(g, n + 1), indegree) && Lists(next, Level(g, n + 1))
  {
    SettledGrows(g, n + 1, n + 1);
    wave := SortBy(NodesAt(nodes, frontier), Display);
    SortedWaveIsWave(Level(g, n), nodes, frontier, wave);
    var sorted := SortBy(frontier, Same);
    ListsPermuted(frontier, sorted, Level(g, n));
    ghost var applied;
    indegree, next, applied := ReleaseAll(g, nodes, deps, dependents, Settled(g, n), sorted, start);
    AppliedIsSettled(g, n, sorted, applied);
    NextIsLevel(g, nodes, deps, n, start, indegree, next);
  }

  /** The error branch: label the nodes whose counter never reached zero. */
  method Report(ghost g: Graph, nodes: map<Key, Node>, indegree: map<Key, int>) returns (stuck: seq<string>)
    requires g.nodes == nodes.Keys && forall k :: k in nodes ==> k in indegree
    requires forall k :: k in nodes ==> (indegree[k] == 0 <==> !ReachesCycle(g, k))
    ensures IsStuckReport(g, nodes, stuck)
  {
    var keys := KeysWhere(nodes.Keys, indegree, false);
    assert Lists(keys, CycleBound(g));
    stuck := SortBy(Labels(nodes, keys), Same);
  }

  /** Between turns: the waves emitted so far, the counters and the frontier all stand at the same level. */
  ghost predicate Turn(g: Graph, nodes: map<Key, Node>, deps: map<Key, seq<Key>>, waves: seq<seq<Node>>,
                       frontier: seq<Key>, indegree: map<Key, int>, remaining: int)
    requires g.Valid()
  {
    && CountersOk(g.nodes, deps, Settled(g, |waves|), indegree)
    && Lists(frontier, Level(g, |waves|))
    && WavesSoFar(g, nodes, waves)
    && remaining == |g.nodes| - |Settled(g, |waves|)|
  }

  lemma NextTurn(g: Graph, nodes: map<Key, Node>, deps: map<Key, seq<Key>>, waves: seq<seq<Node>>, frontier: seq<Key>,
                 indegree: map<Key, int>, remaining: int, wave: seq<Node>, counters: map<Key, int>, next: seq<Key>)
    requires g.Valid() && Turn(g, nodes, deps, waves, frontier, indegree, remaining) && frontier != []
    requires IsWave(Level(g, |waves|), nodes, wave) && |wave| == |frontier|
    requires CountersOk(g.nodes, deps, Settled(g, |waves| + 1), counters) && Lists(next, Level(g, |waves| + 1))
    ensures Turn(g, nodes, deps, waves + [wave], next, counters, remaining - |wave|)
    ensures 0 <= remaining - |wave|
  {
    Emitted(g, |waves|, frontier);
  }

  lemma LastTurn(g: Graph, nodes: map<Key, Node>, deps: map<Key, seq<Key>>, waves: seq<seq<Node>>,
                 indegree: map<Key, int>, remaining: int)
    requires Represents(g, nodes, deps) && Turn(g, nodes, deps, waves, [], indegree, remaining)
    ensures remaining == |CycleBound(g)|
    ensures remaining == 0 <==> Acyclic(g)
    ensures remaining == 0 ==> IsPlan(g, nodes, waves)
    ensures forall k :: k in g.nodes ==> k in indegree && (indegree[k] == 0 <==> !ReachesCycle(g, k))
  {
    assert Level(g, |waves|) == {} by { NothingListed(Level(g, |waves|)); }
    RemainingIsStuck(g, |waves|);
    LeftOverCounters(g, nodes, deps, |waves|, indegree);
  }

  lemma NothingListed(s: set<Key>)
    requires Lists([], s)
    ensures s == {}
  {
    assert forall k :: k in s ==> k in [];
  }

  /** Level-by-level topological sort; the maps may be iterated in any order. */
  method TopoWaves(ghost g: Graph, nodes: map<Key, Node>, deps: map<Key, seq<Key>>) returns (r: Waves)
    requires Represents(g, nodes, deps)
    ensures r.Ordered? <==> Acyclic(g)
    ensures r.Ordered? ==> IsPlan(g, nodes, r.waves)
    ensures r.Stuck? ==> IsStuckReport(g, nodes, r.labels)
  {
    var indegree, dependents := Edges(g, nodes, deps);
    FirstCounters(g, nodes, deps, indegree);
    var frontier := KeysWhere(nodes.Keys, indegree, true);
    FirstFrontier(g, nodes, deps, indegree, frontier);
    var waves: seq<seq<Node>> := [];
    var remaining := |nodes|;
    while frontier != []
      invariant Turn(g, nodes, deps, waves, frontier, indegree, remaining) && remaining >= 0
      decreases remaining
    {
      var wave, counters, next := NextWave(g, nodes, deps, dependents, |waves|, frontier, indegree);
      NextTurn(g, nodes, deps, waves, frontier, indegree, remaining, wave, counters, next);
      remaining := remaining - |wave|;
      waves := waves + [wave];
      indegree, frontier := counters, next;
    }
    LastTurn(g, nodes, deps, waves, indegree, remaining);
    if remaining > 0 {
      var stuck := Report(g, nodes, indegree);
      return Stuck(stuck);
    }
    return Ordered(waves);
  }
}

// Build: from manifests to a plan. Identities are checked, references become
// edges or external labels, and the graph is handed to the topological sort.

module BatchPlan {
  import opened Text
  import opened DependencyGraph
  import opened Planner

  function Present(ms: seq<Manifest>): seq<Resource> {
    if ms == [] then []
    else
      var last := ms[|ms| - 1];
      Present(ms[..|ms| - 1]) + if last.Nil? then [] else [last.r]
  }

  ghost predicate Distinct(ps: seq<Resource>) {
    forall i, j :: 0 <= i < j < |ps| ==> KeyOf(ps[i]) != KeyOf(ps[j])
  }

  ghost function KeySet(ps: seq<Resource>): set<Key> { set r | r in ps :: KeyOf(r) }

  /** The in-set dependency keys of a resource, in order of first reference; a self-reference is not one. */
  ghost function DepKeys(self: Key, refs: seq<Ref>, keys: set<Key>): (ks: seq<Key>)
    ensures NoDuplicates(ks)
    ensures forall d :: d in ks <==> d in keys && d != self && exists j :: 0 <= j < |refs| && RefKey(refs[j]) == d
  {
    if refs == [] then []
    else
      var before := DepKeys(self, refs[..|refs| - 1], keys);
      var d := RefKey(refs[|refs| - 1]);
      assert refs == refs[..|refs| - 1] + [refs[|refs| - 1]];
      if d != self && d in keys && d !in before then before + [d] else before
  }

  function RefLabel(ref: Ref): string { ref.kind + "/" + ref.name }

  /** The labels of the references that leave the set, once each. */
  ghost function Externals(self: Key, refs: seq<Ref>, keys: set<Key>): (ls: seq<string>)
    ensures NoDuplicates(ls)
    ensures forall l :: l in ls <==> exists j :: 0 <= j < |refs| && refs[j].kind + "/" + refs[j].name == l
                                       && RefKey(refs[j]) != self && RefKey(refs[j]) !in keys
  {
    if refs == [] then []
    else
      var before := Externals(self, refs[..|refs| - 1], keys);
      var ref := refs[|refs| - 1];
      assert refs == refs[..|refs| - 1] + [ref];
      if RefKey(ref) != self && RefKey(ref) !in keys && RefLabel(ref) !in before
        then before + [RefLabel(ref)] else before
  }

  /** k's resource refers to d, another resource of the set. */
  ghost predicate DependsOn(ps: seq<Resource>, k: Key, d: Key) {
    && d != k
    && exists r, ref :: r in ps && KeyOf(r) == k && ref in r.refs && RefKey(ref) == d
  }

  ghost function GraphOf(ps: seq<Resource>): (g: Graph)
    ensures g.Valid() && g.nodes == KeySet(ps)
  {
    Graph(KeySet(ps), map k | k in KeySet(ps) :: set d | d in KeySet(ps) && DependsOn(ps, k, d))
  }

  /** The resource with identity k. */
  ghost function Find(ps: seq<Resource>, k: Key): (r: Resource)
    requires k in KeySet(ps)
    ensures r in ps && KeyOf(r) == k
  {
    var r :| r in ps && KeyOf(r) == k; r
  }

  ghost function DepKeysOf(ps: seq<Resource>, r: Resource): seq<Key> { DepKeys(KeyOf(r), r.refs, KeySet(ps)) }

  ghost function DepLabels(ps: seq<Resource>, r: Resource): (ls: seq<string>)
    ensures |ls| == |DepKeysOf(ps, r)|
  {
    var ks := DepKeysOf(ps, r);
    seq(|ks|, i requires 0 <= i < |ks| => assert ks[i] in ks; LabelOf(Find(ps, ks[i])))
  }

  /** A node says what its resource waits for: one label per in-set dependency, and each external label once. */
  ghost predicate NodeOk(ps: seq<Resource>, n: Node) {
    && IsSortOf(n.deps, DepLabels(ps, n.resource), Same)
    && IsSortOf(n.external, Externals(KeyOf(n.resource), n.resource.refs, KeySet(ps)), Same)
  }

  /** The node table holds each resource under its key. */
  ghost predicate Holds(ps: seq<Resource>, nodes: map<Key, Node>) {
    && (forall k :: k in nodes <==> k in KeySet(ps))
    && (forall r :: r in ps ==> nodes[KeyOf(r)].resource == r)
  }

  ghost predicate NodesOk(ps: seq<Resource>, nodes: map<Key, Node>) {
    Holds(ps, nodes) && forall k :: k in nodes ==> NodeOk(ps, nodes[k])
  }

  ghost predicate PlanFor(ps: seq<Resource>, waves: seq<seq<Node>>) {
    exists nodes :: NodesOk(ps, nodes) && IsPlan(GraphOf(ps), nodes, waves)
  }

  ghost predicate StuckReportFor(ps: seq<Resource>, stuck: seq<string>) {
    exists nodes :: NodesOk(ps, nodes) && IsStuckReport(GraphOf(ps), nodes, stuck)
  }

  ghost predicate DuplicateAt(ps: seq<Resource>, j: nat, r: Resource) {
    j < |ps| && ps[j] == r && Distinct(ps[..j]) && !Distinct(ps[..j + 1])
  }

  /** r is the first resource whose key an earlier one has taken. */
  ghost predicate FirstDuplicate(ps: seq<Resource>, r: Resource) { exists j :: DuplicateAt(ps, j, r) }

  datatype Result = Planned(waves: seq<seq<Node>>) | Duplicate(r: Resource) | Cycle(stuck: seq<string>)

  ghost predicate ResultOk(ps: seq<Resource>, r: Result) {
    match r
    case Duplicate(d) => FirstDuplicate(ps, d)
    case Planned(waves) => Distinct(ps) && PlanFor(ps, waves)
    case Cycle(stuck) => Distinct(ps) && !Acyclic(GraphOf(ps)) && StuckReportFor(ps, stuck)
  }

  lemma NextRef(self: Key, refs: seq<Ref>, i: nat, keys: set<Key>)
    requires i < |refs|
    ensures
      var d, ds, ls := RefKey(refs[i]), DepKeys(self, refs[..i], keys), Externals(self, refs[..i], keys);
      && DepKeys(self, refs[..i + 1], keys) == (if d != self && d in keys && d !in ds then ds + [d] else ds)
      && Externals(self, refs[..i + 1], keys)
         == if d != self && d !in keys && RefLabel(refs[i]) !in ls then ls + [RefLabel(refs[i])] else ls
  {
    assert refs[..i + 1][..i] == refs[..i];
  }

  ghost predicate SameMembers(xs: seq<string>, s: set<string>) { forall x :: x in xs <==> x in s }

  lemma LabelsAppend(nodes: map<Key, Node>, ks: seq<Key>, k: Key)
    requires k in nodes && forall x :: x in ks ==> x in nodes
    ensures (forall x :: x in ks + [k] ==> x in nodes)
            && Labels(nodes, ks + [k]) == Labels(nodes, ks) + [Display(nodes[k])]
  {
  }

  /** The reference loop has read i references. */
  ghost predicate Reading(self: Key, refs: seq<Ref>, i: nat, keys: set<Key>, ds: seq<Key>, seenDep: set<Key>,
                          external: seq<string>, seenExt: set<string>)
  {
    && i <= |refs|
    && ds == DepKeys(self, refs[..i], keys) && SameMembers(ds, seenDep)
    && external == Externals(self, refs[..i], keys) && SameMembers(external, seenExt)
  }

  lemma ReadDep(self: Key, refs: seq<Ref>, i: nat, keys: set<Key>, ds: seq<Key>, seenDep: set<Key>,
                external: seq<string>, seenExt: set<string>)
    requires i < |refs| && Reading(self, refs, i, keys, ds, seenDep, external, seenExt)
    requires RefKey(refs[i]) != self && RefKey(refs[i]) in keys
    ensures
      var d := RefKey(refs[i]);
      if d in seenDep then Reading(self, refs, i + 1, keys, ds, seenDep, external, seenExt)
      else Reading(self, refs, i + 1, keys, ds + [d], seenDep + {d}, external, seenExt)
  {
    NextRef(self, refs, i, keys);
  }

  lemma ReadExternal(self: Key, refs: seq<Ref>, i: nat, keys: set<Key>, ds: seq<Key>, seenDep: set<Key>,
                     external: seq<string>, seenExt: set<string>)
    requires i < |refs| && Reading(self, refs, i, keys, ds, seenDep, external, seenExt)
    requires RefKey(refs[i]) != self && RefKey(refs[i]) !in keys
    ensures
      var l := RefLabel(refs[i]);
      if l in seenExt then Reading(self, refs, i + 1, keys, ds, seenDep, external, seenExt)
      else Reading(self, refs, i + 1, keys, ds, seenDep, external + [l], seenExt + {l})
  {
    NextRef(self, refs, i, keys);
  }

  lemma ReadSelf(self: Key, refs: seq<Ref>, i: nat, keys: set<Key>, ds: seq<Key>, seenDep: set<Key>,
                 external: seq<string>, seenExt: set<string>)
    requires i < |refs| && Reading(self, refs, i, keys, ds, seenDep, external, seenExt) && RefKey(refs[i]) == self
    ensures Reading(self, refs, i + 1, keys, ds, seenDep, external, seenExt)
  {
    NextRef(self, refs, i, keys);
  }

  lemma AllRead(self: Key, refs: seq<Ref>, keys: set<Key>, ds: seq<Key>, seenDep: set<Key>,
                external: seq<string>, seenExt: set<string>)
    requires Reading(self, refs, |refs|, keys, ds, seenDep, external, seenExt)
    ensures ds == DepKeys(self, refs, keys) && external == Externals(self, refs, keys)
  {
    assert refs[..|refs|] == refs;
  }

  ghost predicate Labelled(nodes: map<Key, Node>, ds: seq<Key>, labels: seq<string>) {
    (forall d :: d in ds ==> d in nodes) && labels == Labels(nodes, ds)
  }

  /** The reference loop of one node. */
  method Resolve(self: Key, refs: seq<Ref>, nodes: map<Key, Node>)
    returns (ds: seq<Key>, labels: seq<string>, external: seq<string>)
    ensures ds == DepKeys(self, refs, nodes.Keys)
    ensures labels == Labels(nodes, ds)
    ensures external == Externals(self, refs, nodes.Keys)
  {
    ds, labels, external := [], [], [];
    var seenDep: set<Key>, seenExt: set<string> := {}, {};
    for i := 0 to |refs|
      invariant Reading(self, refs, i, nodes.Keys, ds, seenDep, external, seenExt)
      invariant Labelled(nodes, ds, labels)
    {
      var ref := refs[i];
      var d := RefKey(ref);
      if d == self {
        ReadSelf(self, refs, i, nodes.Keys, ds, seenDep, external, seenExt);
        continue;
      }
      if d in nodes {
        ReadDep(self, refs, i, nodes.Keys, ds, seenDep, external, seenExt);
        if d !in seenDep {
          LabelsAppend(nodes, ds, d);
          seenDep, ds, labels := seenDep + {d}, ds + [d], labels + [Display(nodes[d])];
        }
      } else {
        ReadExternal(self, refs, i, nodes.Keys, ds, seenDep, external, seenExt);
        if RefLabel(ref) !in seenExt {
          seenExt, external := seenExt + {RefLabel(ref)}, external + [RefLabel(ref)];
        }
      }
    }
    AllRead(self, refs, nodes.Keys, ds, seenDep, external, seenExt);
  }

  function KeysOf(ps: seq<Resource>): (ks: seq<Key>)
    ensures |ks| == |ps| && forall i :: 0 <= i < |ps| ==> ks[i] == KeyOf(ps[i])
  {
    seq(|ps|, i requires 0 <= i < |ps| => KeyOf(ps[i]))
  }

  lemma KeySetGrows(ps: seq<Resource>, r: Resource)
    ensures KeySet(ps + [r]) == KeySet(ps) + {KeyOf(r)}
  {
    forall x | x in KeySet(ps) ensures x in KeySet(ps + [r]) {
      var p :| p in ps && KeyOf(p) == x;
      assert p in ps + [r];
    }
    assert r in ps + [r];
  }

  lemma AddResource(ps: seq<Resource>, r: Resource, nodes: map<Key, Node>)
    requires Holds(ps, nodes) && Distinct(ps) && KeyOf(r) !in nodes
    ensures Holds(ps + [r], nodes[KeyOf(r) := Node(r, [], [])]) && Distinct(ps + [r])
  {
    KeySetGrows(ps, r);
    forall i | 0 <= i < |ps| ensures KeyOf(ps[i]) in KeySet(ps) {}
  }

  /** The identity loop: either every key is new, or the first resource whose key is taken is reported. */
  method Collect(ms: seq<Manifest>) returns (nodes: map<Key, Node>, order: seq<Key>, dup: Manifest)
    ensures dup.Nil? ==> Holds(Present(ms), nodes) && Distinct(Present(ms)) && order == KeysOf(Present(ms))
    ensures dup.Some? ==> FirstDuplicate(Present(ms), dup.r) && !Distinct(Present(ms))
  {
    nodes, order := map[], [];
    for i := 0 to |ms|
      invariant Holds(Present(ms[..i]), nodes) && Distinct(Present(ms[..i])) && order == KeysOf(Present(ms[..i]))
    {
      PresentNext(ms, i);
      if ms[i].Nil? {
        continue;
      }
      var r := ms[i].r;
      var k := KeyOf(r);
      if k in nodes {
        ReportDuplicate(ms, i);
        return nodes, order, ms[i];
      }
      AddResource(Present(ms[..i]), r, nodes);
      assert KeysOf(Present(ms[..i]) + [r]) == order + [k];
      nodes, order := nodes[k := Node(r, [], [])], order + [k];
    }
    assert ms[..|ms|] == ms;
    return nodes, order, Nil;
  }

  lemma {:induction false} PresentExtends(ms: seq<Manifest>, i: nat)
    requires i <= |ms|
    ensures Present(ms[..i]) <= Present(ms)
  {
    if i < |ms| {
      assert ms[..|ms| - 1][..i] == ms[..i];
      PresentExtends(ms[..|ms| - 1], i);
    } else {
      assert ms[..i] == ms;
    }
  }

  lemma PresentNext(ms: seq<Manifest>, i: nat)
    requires i < |ms|
    ensures Present(ms[..i + 1]) == Present(ms[..i]) + if ms[i].Nil? then [] else [ms[i].r]
  {
    assert ms[..i + 1][..i] == ms[..i];
  }

  lemma ReportDuplicate(ms: seq<Manifest>, i: nat)
    requires i < |ms| && ms[i].Some? && Distinct(Present(ms[..i]))
    requires KeyOf(ms[i].r) in KeySet(Present(ms[..i]))
    ensures FirstDuplicate(Present(ms), ms[i].r) && !Distinct(Present(ms))
  {
    PresentNext(ms, i);
    PresentExtends(ms, i + 1);
    RepeatedKey(Present(ms), Present(ms[..i]), ms[i].r);
  }

  lemma RepeatedKey(ps: seq<Resource>, qs: seq<Resource>, r: Resource)
    requires qs + [r] <= ps && Distinct(qs) && KeyOf(r) in KeySet(qs)
    ensures FirstDuplicate(ps, r) && !Distinct(ps)
  {
    var j := |qs|;
    assert ps[..j] == qs && ps[j] == (qs + [r])[j];
    var p :| p in qs && KeyOf(p) == KeyOf(r);
    var m :| 0 <= m < j && ps[..j][m] == p;
    ClashAt(ps, m, j);
    assert DuplicateAt(ps, j, r);
  }

  lemma ClashAt(ps: seq<Resource>, m: nat, j: nat)
    requires m < j < |ps| && KeyOf(ps[m]) == KeyOf(ps[j])
    ensures !Distinct(ps[..j + 1]) && !Distinct(ps)
  {
    assert ps[..j + 1][m] == ps[m] && ps[..j + 1][j] == ps[j];
  }

  ghost predicate ResolvedAt(ps: seq<Resource>, r: Resource, nodes: map<Key, Node>, deps: map<Key, seq<Key>>) {
    && KeyOf(r) in nodes && NodeOk(ps, nodes[KeyOf(r)])
    && DepsOf(deps, KeyOf(r)) == DepKeysOf(ps, r)
  }

  /** The edge loop has treated the first n resources and not touched the edges of the others. */
  ghost predicate Resolved(ps: seq<Resource>, n: nat, nodes: map<Key, Node>, deps: map<Key, seq<Key>>) {
    && Holds(ps, nodes)
    && (forall i :: 0 <= i < n <= |ps| ==> ResolvedAt(ps, ps[i], nodes, deps))
    && (forall i :: n <= i < |ps| ==> KeyOf(ps[i]) !in deps)
  }

  lemma DepKeysAreEdges(ps: seq<Resource>, k: Key, r: Resource)
    requires Distinct(ps) && r in ps && KeyOf(r) == k
    ensures Lists(DepKeysOf(ps, r), GraphOf(ps).deps[k])
  {
    var ks := DepKeysOf(ps, r);
    forall d ensures d in ks <==> d in GraphOf(ps).deps[k] {
      if d in ks {
        var j :| 0 <= j < |r.refs| && RefKey(r.refs[j]) == d;
        assert r.refs[j] in r.refs;
      }
      if d in GraphOf(ps).deps[k] {
        var r', ref :| r' in ps && KeyOf(r') == k && ref in r'.refs && RefKey(ref) == d;
        SameKeySameResource(ps, r, r');
        var j :| 0 <= j < |r.refs| && r.refs[j] == ref;
      }
    }
  }

  lemma SameKeySameResource(ps: seq<Resource>, r: Resource, r': Resource)
    requires Distinct(ps) && r in ps && r' in ps && KeyOf(r) == KeyOf(r')
    ensures r == r'
  {
    var i :| 0 <= i < |ps| && ps[i] == r;
    var j :| 0 <= j < |ps| && ps[j] == r';
  }

  lemma AllResolved(ps: seq<Resource>, nodes: map<Key, Node>, deps: map<Key, seq<Key>>)
    requires Distinct(ps) && Resolved(ps, |ps|, nodes, deps)
    ensures NodesOk(ps, nodes) && Represents(GraphOf(ps), nodes, deps)
  {
    forall k | k in nodes
      ensures NodeOk(ps, nodes[k]) && KeyOf(nodes[k].resource) == k
      ensures Lists(DepsOf(deps, k), GraphOf(ps).deps[k])
    {
      var r := Find(ps, k);
      var i :| 0 <= i < |ps| && ps[i] == r;
      assert ResolvedAt(ps, ps[i], nodes, deps);
      DepKeysAreEdges(ps, k, r);
    }
  }

  /** Labels depend on the resources alone, so a half-resolved table gives the right ones. */
  lemma LabelsAreRight(ps: seq<Resource>, nodes: map<Key, Node>, r: Resource)
    requires Distinct(ps) && Holds(ps, nodes) && r in ps && nodes.Keys == KeySet(ps)
    ensures Labels(nodes, DepKeysOf(ps, r)) == DepLabels(ps, r)
  {
    var ks := DepKeysOf(ps, r);
    forall i | 0 <= i < |ks| ensures Display(nodes[ks[i]]) == LabelOf(Find(ps, ks[i])) {
      assert ks[i] in ks;
    }
  }

  lemma ResolvedKept(ps: seq<Resource>, r: Resource, nodes: map<Key, Node>, deps: map<Key, seq<Key>>,
                     k: Key, n: Node, ds: seq<Key>)
    requires ResolvedAt(ps, r, nodes, deps) && KeyOf(r) != k
    ensures ResolvedAt(ps, r, nodes[k := n], if ds != [] then deps[k := ds] else deps)
  {
  }

  lemma ResolveOne(ps: seq<Resource>, i: nat, nodes: map<Key, Node>, deps: map<Key, seq<Key>>, n: Node)
    requires Distinct(ps) && i < |ps| && Resolved(ps, i, nodes, deps)
    requires n.resource == ps[i] && NodeOk(ps, n)
    ensures
      var k, ds := KeyOf(ps[i]), DepKeysOf(ps, ps[i]);
      Resolved(ps, i + 1, nodes[k := n], if ds != [] then deps[k := ds] else deps)
  {
    var k, ds := KeyOf(ps[i]), DepKeysOf(ps, ps[i]);
    var nodes', deps' := nodes[k := n], if ds != [] then deps[k := ds] else deps;
    assert Holds(ps, nodes') by {
      assert ps[i] in ps;
      forall r | r in ps ensures nodes'[KeyOf(r)].resource == r {
        if KeyOf(r) == k { SameKeySameResource(ps, r, ps[i]); }
      }
    }
    forall j | 0 <= j < i ensures ResolvedAt(ps, ps[j], nodes', deps') {
      ResolvedKept(ps, ps[j], nodes, deps, k, n, ds);
    }
    assert ResolvedAt(ps, ps[i], nodes', deps');
  }

  /** The edge loop, in input order. */
  method ResolveAll(ghost ps: seq<Resource>, bare: map<Key, Node>, order: seq<Key>)
    returns (nodes: map<Key, Node>, deps: map<Key, seq<Key>>)
    requires Distinct(ps) && Holds(ps, bare) && order == KeysOf(ps)
    ensures NodesOk(ps, nodes) && Represents(GraphOf(ps), nodes, deps)
  {
    nodes, deps := bare, map[];
    for i := 0 to |order|
      invariant Resolved(ps, i, nodes, deps)
    {
      var k := order[i];
      assert ps[i] in ps && nodes.Keys == KeySet(ps);
      var r := nodes[k].resource;
      var ds, labels, external := Resolve(k, r.refs, nodes);
      LabelsAreRight(ps, nodes, r);
      var sortedDeps := SortBy(labels, Same);
      var sortedExternal := SortBy(external, Same);
      var n := Node(r, sortedDeps, sortedExternal);
      ResolveOne(ps, i, nodes, deps, n);
      if ds != [] {
        deps := deps[k := ds];
      }
      nodes := nodes[k := n];
    }
    AllResolved(ps, nodes, deps);
  }

  /** Build: the batch plan of a list of manifests, nil entries skipped. */
  method Build(ms: seq<Manifest>) returns (r: Result)
    ensures r.Duplicate? <==> !Distinct(Present(ms))
    ensures r.Planned? <==> Distinct(Present(ms)) && Acyclic(GraphOf(Present(ms)))
    ensures ResultOk(Present(ms), r)
  {
    var bare, order, dup := Collect(ms);
    if dup.Some? {
      return Duplicate(dup.r);
    }
    ghost var ps := Present(ms);
    var nodes, deps := ResolveAll(ps, bare, order);
    var w := TopoWaves(GraphOf(ps), nodes, deps);
    match w
    case Ordered(waves) => return Planned(waves);
    case Stuck(labels) => return Cycle(labels);
  }
}

// The theory behind the batch planner: which nodes can ever be applied, in
// which wave, and why the others cannot.

module DependencyGraph {
  type Key = string

  datatype Graph = Graph(nodes: set<Key>, deps: map<Key, set<Key>>) {
    ghost predicate Valid() {
      deps.Keys == nodes && forall k :: k in nodes ==> deps[k] <= nodes
    }
  }

  /** The nodes whose every dependency chain ends within n nodes; wave n is what this gains at n+1. */
  ghost function Settled(g: Graph, n: nat): set<Key>
    requires g.Valid()
  {
    if n == 0 then {} else Ready(g, Settled(g, n - 1))
  }

  /** The nodes whose dependencies have all been applied. */
  ghost function Ready(g: Graph, applied: set<Key>): set<Key>
    requires g.Valid()
  {
    set k | k in g.nodes && g.deps[k] <= applied
  }

  ghost function Level(g: Graph, n: nat): set<Key>
    requires g.Valid()
  {
    Settled(g, n + 1) - Settled(g, n)
  }

  /** A dependency chain: every node directly depends on the next. */
  ghost predicate IsChain(g: Graph, p: seq<Key>) {
    && p != []
    && (forall i :: 0 <= i < |p| ==> p[i] in g.nodes)
    && (forall i :: 0 <= i < |p| - 1 ==> p[i] in g.deps && p[i + 1] in g.deps[p[i]])
  }

  ghost predicate ChainFrom(g: Graph, k: Key, p: seq<Key>) { IsChain(g, p) && p[0] == k }

  ghost predicate OnCycle(g: Graph, c: Key) {
    exists p :: ChainFrom(g, c, p) && |p| >= 2 && p[|p| - 1] == c
  }

  /** On a cycle, or downstream of one: a chain of dependencies leads to a node on a cycle. */
  ghost predicate ReachesCycle(g: Graph, k: Key) {
    exists p :: ChainFrom(g, k, p) && OnCycle(g, p[|p| - 1])
  }

  ghost function CycleBound(g: Graph): set<Key> { set k | k in g.nodes && ReachesCycle(g, k) }

  ghost predicate Acyclic(g: Graph) { forall c :: c in g.nodes ==> !OnCycle(g, c) }

  lemma {:induction false} SettledGrows(g: Graph, m: nat, n: nat)
    requires g.Valid() && m <= n
    ensures Settled(g, m) <= Settled(g, n) <= g.nodes
  {
    if m > 0 {
      SettledGrows(g, m - 1, n - 1);
    }
  }

  lemma {:induction false} SettledStops(g: Graph, m: nat, n: nat)
    requires g.Valid() && m <= n && Level(g, m) == {}
    ensures Settled(g, n) == Settled(g, m)
  {
    SettledGrows(g, m, m + 1);
    if m < n {
      SettledStops(g, m, n - 1);
      forall k | k in Settled(g, m + 1) ensures k in Settled(g, m) {
        assert k in Level(g, m) || k in Settled(g, m);
      }
      assert Settled(g, m + 1) == Settled(g, m);
    }
  }

  // --- waves and chains ---

  lemma {:induction false} ChainsDescend(g: Graph, p: seq<Key>, n: nat, j: nat)
    requires g.Valid() && IsChain(g, p) && p[0] in Settled(g, n) && j < |p|
    ensures j < n && p[j] in Settled(g, n - j)
  {
    if j > 0 {
      ChainsDescend(g, p, n, j - 1);
      assert p[j - 1 + 1] in g.deps[p[j - 1]];
    }
  }

  lemma {:induction false} UnsettledHasChain(g: Graph, k: Key, n: nat) returns (p: seq<Key>)
    requires g.Valid() && k in g.nodes && k !in Settled(g, n)
    ensures ChainFrom(g, k, p) && |p| == n + 1
    decreases n
  {
    if n == 0 {
      p := [k];
    } else {
      var d :| d in g.deps[k] && d !in Settled(g, n - 1);
      var q := UnsettledHasChain(g, d, n - 1);
      p := [k] + q;
    }
  }

  /** A node settles within n exactly when none of its dependency chains is longer than n nodes. */
  lemma SettledIffChainsAreShort(g: Graph, k: Key, n: nat)
    requires g.Valid() && k in g.nodes
    ensures k in Settled(g, n) <==> forall p :: ChainFrom(g, k, p) ==> |p| <= n
  {
    if k in Settled(g, n) {
      forall p | ChainFrom(g, k, p) ensures |p| <= n {
        ChainsDescend(g, p, n, |p| - 1);
      }
    } else {
      var p := UnsettledHasChain(g, k, n);
    }
  }

  /** A node's wave is the length, in edges, of its longest dependency chain. */
  lemma WaveIsLongestChain(g: Graph, k: Key, n: nat)
    requires g.Valid() && k in g.nodes
    ensures k in Level(g, n) <==>
              && (exists p :: ChainFrom(g, k, p) && |p| - 1 == n)
              && (forall p :: ChainFrom(g, k, p) ==> |p| - 1 <= n)
  {
    SettledIffChainsAreShort(g, k, n + 1);
    SettledIffChainsAreShort(g, k, n);
    if k in Level(g, n) {
      var p := UnsettledHasChain(g, k, n);
    }
  }

  /** Any schedule that puts every dependency strictly earlier. */
  ghost predicate Respects(g: Graph, rank: map<Key, nat>) {
    && rank.Keys == g.nodes
    && forall k, d :: k in g.nodes && k in g.deps && d in g.deps[k] && d in rank ==> rank[d] < rank[k]
  }

  /** No such schedule puts any node earlier than its wave. */
  lemma {:induction false} WavesAreEarliest(g: Graph, rank: map<Key, nat>, k: Key, n: nat)
    requires g.Valid() && Respects(g, rank) && k in Level(g, n)
    ensures n <= rank[k]
    decreases n
  {
    if n > 0 {
      var d :| d in g.deps[k] && d !in Settled(g, n - 1);
      assert d in Level(g, n - 1);
      WavesAreEarliest(g, rank, d, n - 1);
    }
  }

  /** So no schedule uses fewer slots: one that fits in `slots` leaves every wave from there on empty. */
  lemma WaveCountIsMinimal(g: Graph, rank: map<Key, nat>, slots: nat, n: nat)
    requires g.Valid() && Respects(g, rank) && forall k :: k in rank ==> rank[k] < slots
    requires Level(g, n) != {}
    ensures n < slots
  {
    var k :| k in Level(g, n);
    SettledGrows(g, n + 1, n + 1);
    WavesAreEarliest(g, rank, k, n);
  }

  lemma DependenciesComeEarlier(g: Graph, k: Key, d: Key, n: nat)
    requires g.Valid() && k in Level(g, n) && d in g.deps[k]
    ensures exists m :: 0 <= m < n && d in Level(g, m)
  {
    assert d in Settled(g, n);
    FindLevel(g, d, n);
  }

  lemma {:induction false} FindLevel(g: Graph, k: Key, n: nat)
    requires g.Valid() && k in Settled(g, n)
    ensures exists m :: 0 <= m < n && k in Level(g, m)
  {
    if k in Settled(g, n - 1) {
      FindLevel(g, k, n - 1);
    } else {
      assert k in Level(g, n - 1);
    }
  }

  // --- cycles ---

  lemma {:induction false} Pigeonhole(p: seq<Key>, s: set<Key>) returns (i: nat, j: nat)
    requires |p| > |s| && forall k :: 0 <= k < |p| ==> p[k] in s
    ensures i < j < |p| && p[i] == p[j]
    decreases |s|
  {
    var last := p[|p| - 1];
    if m :| 0 <= m < |p| - 1 && p[m] == last {
      i, j := m, |p| - 1;
    } else {
      i, j := Pigeonhole(p[..|p| - 1], s - {last});
    }
  }

  /** A node that does not settle within |nodes| leads to a cycle: a long chain must repeat a node. */
  lemma UnsettledReachesCycle(g: Graph, k: Key)
    requires g.Valid() && k in g.nodes && k !in Settled(g, |g.nodes|)
    ensures ReachesCycle(g, k)
  {
    var p := UnsettledHasChain(g, k, |g.nodes|);
    var i, j := Pigeonhole(p, g.nodes);
    assert ChainFrom(g, p[i], p[i..j + 1]);
    assert ChainFrom(g, k, p[..i + 1]);
  }

  lemma {:induction false} CyclesNeverSettle(g: Graph, c: Key, p: seq<Key>, n: nat)
    requires g.Valid() && ChainFrom(g, c, p) && |p| >= 2 && p[|p| - 1] == c
    ensures c !in Settled(g, n)
  {
    if c in Settled(g, n) {
      ChainsDescend(g, p, n, |p| - 1);
      CyclesNeverSettle(g, c, p, n - (|p| - 1));
    }
  }

  /** Never settling, not settling within |nodes|, and leading to a cycle are the same thing. */
  lemma StuckIffReachesCycle(g: Graph, k: Key)
    requires g.Valid() && k in g.nodes
    ensures k !in Settled(g, |g.nodes|) <==> ReachesCycle(g, k)
    ensures ReachesCycle(g, k) <==> forall n: nat :: k !in Settled(g, n)
  {
    if k !in Settled(g, |g.nodes|) {
      UnsettledReachesCycle(g, k);
    }
    if ReachesCycle(g, k) {
      var q :| ChainFrom(g, k, q) && OnCycle(g, q[|q| - 1]);
      var c := q[|q| - 1];
      var p :| ChainFrom(g, c, p) && |p| >= 2 && p[|p| - 1] == c;
      forall n: nat ensures k !in Settled(g, n) {
        if k in Settled(g, n) {
          ChainsDescend(g, q, n, |q| - 1);
          CyclesNeverSettle(g, c, p, n - (|q| - 1));
        }
      }
    }
  }

  /** Everything settles exactly when the graph has no cycle. */
  lemma AllSettleIffAcyclic(g: Graph)
    requires g.Valid()
    ensures Settled(g, |g.nodes|) == g.nodes <==> Acyclic(g)
  {
    SettledGrows(g, |g.nodes|, |g.nodes|);
    forall k | k in g.nodes ensures k in Settled(g, |g.nodes|) || !Acyclic(g) {
      StuckIffReachesCycle(g, k);
    }
    forall c | c in g.nodes && OnCycle(g, c) ensures c !in Settled(g, |g.nodes|) {
      assert ChainFrom(g, c, [c]);
      StuckIffReachesCycle(g, c);
    }
  }

  lemma FinallySettled(g: Graph, m: nat, k: Key)
    requires g.Valid() && Level(g, m) == {} && k in g.nodes
    ensures k in Settled(g, m) <==> !ReachesCycle(g, k)
  {
    var top := if m <= |g.nodes| then |g.nodes| else m;
    SettledStops(g, m, top);
    SettledGrows(g, |g.nodes|, top);
    StuckIffReachesCycle(g, k);
  }

  lemma SettledByBound(g: Graph)
    requires g.Valid()
    ensures Settled(g, |g.nodes|) == g.nodes - CycleBound(g)
  {
    SettledGrows(g, |g.nodes|, |g.nodes|);
    forall k | k in g.nodes ensures k in Settled(g, |g.nodes|) <==> k !in CycleBound(g) {
      StuckIffReachesCycle(g, k);
    }
  }

  lemma SettledWhenEmpty(g: Graph, m: nat)
    requires g.Valid() && Level(g, m) == {}
    ensures Settled(g, m) == g.nodes - CycleBound(g)
  {
    SettledGrows(g, m, m);
    forall k | k in g.nodes ensures k in Settled(g, m) <==> k !in CycleBound(g) {
      FinallySettled(g, m, k);
    }
  }

  /** Once a wave comes out empty, what has been emitted is everything that does not lead to a cycle. */
  lemma EmptyLevelIsFinal(g: Graph, m: nat)
    requires g.Valid() && Level(g, m) == {}
    ensures Settled(g, m) == g.nodes - CycleBound(g)
    ensures Settled(g, m) == g.nodes <==> Acyclic(g)
  {
    SettledWhenEmpty(g, m);
    SettledByBound(g);
    AllSettleIffAcyclic(g);
  }
}

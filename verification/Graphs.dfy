/** Finite directed graphs given by their edge sets: walks, reachability, cycles, and the two
    arithmetic encodings of "acyclic" and "cyclic" that the window checker hands to its solver. */
module Graphs {

  /** A walk visits at least one node and follows an edge at every step. */
  ghost predicate IsWalk<V>(edges: set<(V, V)>, p: seq<V>) {
    |p| >= 1 && forall i :: 0 <= i < |p| - 1 ==> (p[i], p[i + 1]) in edges
  }

  ghost predicate WalkFromTo<V>(edges: set<(V, V)>, p: seq<V>, a: V, b: V) {
    |p| >= 2 && IsWalk(edges, p) && p[0] == a && p[|p| - 1] == b
  }

  /** Transitive closure: a nonempty sequence of edges leads from a to b. */
  ghost predicate Reaches<V(!new)>(edges: set<(V, V)>, a: V, b: V) {
    exists p :: WalkFromTo(edges, p, a, b)
  }

  ghost predicate IsCycle<V>(edges: set<(V, V)>, p: seq<V>) {
    |p| >= 2 && IsWalk(edges, p) && p[0] == p[|p| - 1]
  }

  ghost predicate Acyclic<V(!new)>(edges: set<(V, V)>) {
    forall p :: !IsCycle(edges, p)
  }

  ghost predicate SameReachability<V(!new)>(e: set<(V, V)>, f: set<(V, V)>) {
    forall a, b :: Reaches(e, a, b) <==> Reaches(f, a, b)
  }

  lemma EdgeReaches<V(!new)>(edges: set<(V, V)>, a: V, b: V)
    requires (a, b) in edges
    ensures Reaches(edges, a, b)
  {
    assert WalkFromTo(edges, [a, b], a, b);
  }

  lemma ReachesTransitive<V(!new)>(edges: set<(V, V)>, a: V, b: V, c: V)
    requires Reaches(edges, a, b) && Reaches(edges, b, c)
    ensures Reaches(edges, a, c)
  {
    var p :| WalkFromTo(edges, p, a, b);
    var q :| WalkFromTo(edges, q, b, c);
    var r := p + q[1..];
    forall i | 0 <= i < |r| - 1 ensures (r[i], r[i + 1]) in edges {
      if i < |p| - 1 {
        assert (p[i], p[i + 1]) in edges;
      } else {
        var j := i - (|p| - 1);
        assert (q[j], q[j + 1]) in edges;
        assert r[i] == q[j] && r[i + 1] == q[j + 1];
      }
    }
    assert WalkFromTo(edges, r, a, c);
  }

  lemma ReachesMonotone<V(!new)>(e: set<(V, V)>, f: set<(V, V)>, a: V, b: V)
    requires e <= f && Reaches(e, a, b)
    ensures Reaches(f, a, b)
  {
    var p :| WalkFromTo(e, p, a, b);
    assert WalkFromTo(f, p, a, b);
  }

  ghost predicate IsSymmetric<V(!new)>(edges: set<(V, V)>) {
    forall a, b :: (a, b) in edges ==> (b, a) in edges
  }

  lemma {:induction false} ReverseWalk<V(!new)>(edges: set<(V, V)>, p: seq<V>)
    requires IsSymmetric(edges) && |p| >= 2 && IsWalk(edges, p)
    ensures Reaches(edges, p[|p| - 1], p[0])
    decreases |p|
  {
    assert (p[0], p[1]) in edges;
    EdgeReaches(edges, p[1], p[0]);
    if |p| > 2 {
      var q := p[1..];
      forall i | 0 <= i < |q| - 1 ensures (q[i], q[i + 1]) in edges { assert (p[i + 1], p[i + 2]) in edges; }
      ReverseWalk(edges, q);
      ReachesTransitive(edges, p[|p| - 1], p[1], p[0]);
    }
  }

  lemma ReachesSymmetric<V(!new)>(edges: set<(V, V)>, a: V, b: V)
    requires IsSymmetric(edges) && Reaches(edges, a, b)
    ensures Reaches(edges, b, a)
  {
    var p :| WalkFromTo(edges, p, a, b);
    ReverseWalk(edges, p);
  }

  /** If every edge of e is a path of f, every path of e is a path of f. */
  lemma {:induction false} WalkImage<V(!new)>(e: set<(V, V)>, f: set<(V, V)>, p: seq<V>)
    requires forall a, b :: (a, b) in e ==> Reaches(f, a, b)
    requires |p| >= 2 && IsWalk(e, p)
    ensures Reaches(f, p[0], p[|p| - 1])
    decreases |p|
  {
    assert (p[0], p[1]) in e;
    if |p| > 2 {
      var q := p[1..];
      forall i | 0 <= i < |q| - 1 ensures (q[i], q[i + 1]) in e {
        assert (p[i + 1], p[i + 2]) in e;
      }
      WalkImage(e, f, q);
      ReachesTransitive(f, p[0], p[1], p[|p| - 1]);
    }
  }

  lemma ReachabilityInclusion<V(!new)>(e: set<(V, V)>, f: set<(V, V)>)
    requires forall a, b :: (a, b) in e ==> Reaches(f, a, b)
    ensures forall a, b :: Reaches(e, a, b) ==> Reaches(f, a, b)
  {
    forall a, b | Reaches(e, a, b) ensures Reaches(f, a, b) {
      var p :| WalkFromTo(e, p, a, b);
      WalkImage(e, f, p);
    }
  }

  lemma AcyclicIffNoSelfReach<V(!new)>(edges: set<(V, V)>)
    ensures Acyclic(edges) <==> forall a :: !Reaches(edges, a, a)
  {
    if a :| Reaches(edges, a, a) {
      var p :| WalkFromTo(edges, p, a, a);
      assert IsCycle(edges, p);
    }
    if p :| IsCycle(edges, p) {
      assert WalkFromTo(edges, p, p[0], p[0]);
      assert Reaches(edges, p[0], p[0]);
    }
  }

  /** A graph whose edges are paths of an acyclic graph is acyclic. */
  lemma AcyclicThroughInclusion<V(!new)>(e: set<(V, V)>, f: set<(V, V)>)
    requires forall a, b :: (a, b) in e ==> Reaches(f, a, b)
    requires Acyclic(f)
    ensures Acyclic(e)
  {
    ReachabilityInclusion(e, f);
    AcyclicIffNoSelfReach(e);
    AcyclicIffNoSelfReach(f);
  }

  // ----- Acyclic graphs are exactly the graphs with rising ranks -----

  ghost predicate RanksRise<V(!new)>(edges: set<(V, V)>, rank: V -> int) {
    forall a, b :: (a, b) in edges ==> rank(a) < rank(b)
  }

  lemma {:induction false} RankAlongWalk<V(!new)>(edges: set<(V, V)>, rank: V -> int, p: seq<V>, n: nat)
    requires RanksRise(edges, rank) && IsWalk(edges, p) && 1 <= n < |p|
    ensures rank(p[0]) < rank(p[n])
  {
    assert (p[n - 1], p[n]) in edges;
    if n > 1 { RankAlongWalk(edges, rank, p, n - 1); }
  }

  lemma RisingRanksForbidCycles<V(!new)>(edges: set<(V, V)>, rank: V -> int)
    requires RanksRise(edges, rank)
    ensures Acyclic(edges)
  {
    forall p ensures !IsCycle(edges, p) {
      if IsCycle(edges, p) { RankAlongWalk(edges, rank, p, |p| - 1); }
    }
  }

  /** Sources of edges that reach v. In an acyclic graph this set grows strictly along every edge. */
  ghost function Ancestors<V(!new)>(edges: set<(V, V)>, v: V): set<V> {
    set e | e in edges && Reaches(edges, e.0, v) :: e.0
  }

  ghost function AncestorCount<V(!new)>(edges: set<(V, V)>, v: V): int {
    |Ancestors(edges, v)|
  }

  lemma ProperSubsetIsSmaller<T>(s: set<T>, t: set<T>)
    requires s < t
    ensures |s| < |t|
  {
    var x :| x in t && x !in s;
    SubsetIsSmaller(s, t - {x});
  }

  lemma {:induction false} SubsetIsSmaller<T>(s: set<T>, t: set<T>)
    requires s <= t
    ensures |s| <= |t|
  {
    if s != {} {
      var x :| x in s;
      SubsetIsSmaller(s - {x}, t - {x});
    }
  }

  lemma AcyclicGraphsHaveRanks<V(!new)>(edges: set<(V, V)>)
    requires Acyclic(edges)
    ensures RanksRise(edges, v => AncestorCount(edges, v))
  {
    AcyclicIffNoSelfReach(edges);
    forall a, b | (a, b) in edges ensures AncestorCount(edges, a) < AncestorCount(edges, b) {
      EdgeReaches(edges, a, b);
      forall x | x in Ancestors(edges, a) ensures x in Ancestors(edges, b) {
        ReachesTransitive(edges, x, a, b);
      }
      assert (a, b).0 in Ancestors(edges, b);
      assert a !in Ancestors(edges, a);
      ProperSubsetIsSmaller(Ancestors(edges, a), Ancestors(edges, b));
    }
  }

  // ----- Cyclic graphs are exactly the graphs with a nonempty degree-one selection -----

  ghost function Outgoing<V>(selected: set<(V, V)>, n: V): set<(V, V)> {
    set e | e in selected && e.0 == n
  }

  ghost function Incoming<V>(selected: set<(V, V)>, n: V): set<(V, V)> {
    set e | e in selected && e.1 == n
  }

  /** Every node carries exactly one selected in-edge and out-edge if it is selected, none otherwise. */
  ghost predicate DegreesAreOne<V>(all: set<V>, nodes: set<V>, selected: set<(V, V)>) {
    forall n :: n in all ==>
      && |Incoming(selected, n)| == (if n in nodes then 1 else 0)
      && |Outgoing(selected, n)| == (if n in nodes then 1 else 0)
  }

  lemma {:induction false} HighestNode<V(!new)>(nodes: set<V>, rank: V -> int) returns (top: V)
    requires nodes != {}
    ensures top in nodes && forall n :: n in nodes ==> rank(n) <= rank(top)
  {
    top :| top in nodes;
    if nodes != {top} {
      var other := HighestNode(nodes - {top}, rank);
      if rank(top) < rank(other) { top := other; }
    }
  }

  /** No rank rises along a degree-one selection: its highest node still has a way out. */
  lemma DegreeSelectionDefeatsRanks<V(!new)>(all: set<V>, edges: set<(V, V)>, nodes: set<V>, selected: set<(V, V)>,
                                             rank: V -> int)
    requires forall e :: e in edges ==> e.0 in all && e.1 in all
    requires selected <= edges && {} < nodes <= all
    requires DegreesAreOne(all, nodes, selected)
    ensures !RanksRise(edges, rank)
  {
    var top := HighestNode(nodes, rank);
    assert Outgoing(selected, top) != {};
    var e :| e in Outgoing(selected, top);
    assert e in Incoming(selected, e.1);
    assert e.1 in nodes;
    assert (e.0, e.1) in edges && rank(e.1) <= rank(e.0);
  }

  lemma DegreeSelectionNeedsCycle<V(!new)>(all: set<V>, edges: set<(V, V)>, nodes: set<V>, selected: set<(V, V)>)
    requires forall e :: e in edges ==> e.0 in all && e.1 in all
    requires selected <= edges && {} < nodes <= all
    requires DegreesAreOne(all, nodes, selected)
    ensures !Acyclic(edges)
  {
    DegreeSelectionDefeatsRanks(all, edges, nodes, selected, v => AncestorCount(edges, v));
    if Acyclic(edges) { AcyclicGraphsHaveRanks(edges); }
  }

  ghost predicate IsSimpleCycle<V>(edges: set<(V, V)>, p: seq<V>) {
    IsCycle(edges, p) && forall i, j :: 0 <= i < j < |p| - 1 ==> p[i] != p[j]
  }

  lemma {:induction false} ShortenCycle<V(!new)>(edges: set<(V, V)>, p: seq<V>) returns (q: seq<V>)
    requires IsCycle(edges, p)
    ensures IsSimpleCycle(edges, q)
    decreases |p|
  {
    if i, j :| 0 <= i < j < |p| - 1 && p[i] == p[j] {
      var r := p[i..j + 1];
      forall k | 0 <= k < |r| - 1 ensures (r[k], r[k + 1]) in edges {
        assert (p[i + k], p[i + k + 1]) in edges;
      }
      q := ShortenCycle(edges, r);
    } else {
      q := p;
    }
  }

  ghost function CycleNodes<V>(p: seq<V>): set<V> { set v | v in p }

  ghost function CycleEdges<V>(p: seq<V>): set<(V, V)> {
    set i {:trigger p[i]} | 0 <= i < |p| - 1 :: (p[i], p[i + 1])
  }

  lemma SimpleCycleDegrees<V(!new)>(edges: set<(V, V)>, p: seq<V>, n: V)
    requires IsSimpleCycle(edges, p)
    ensures |Incoming(CycleEdges(p), n)| == (if n in CycleNodes(p) then 1 else 0)
    ensures |Outgoing(CycleEdges(p), n)| == (if n in CycleNodes(p) then 1 else 0)
  {
    var last := |p| - 1;
    if n in p {
      var i :| 0 <= i < |p| && p[i] == n;
      var k := if i == last then 0 else i;
      var before := if k == 0 then last - 1 else k - 1;
      var into, out := (p[before], p[before + 1]), (p[k], p[k + 1]);
      assert into in CycleEdges(p) && out in CycleEdges(p);
      forall e | e in CycleEdges(p) ensures e.0 == n ==> e == out ensures e.1 == n ==> e == into {
        var j :| 0 <= j < last && e == (p[j], p[j + 1]);
        if j + 1 == last && e.1 == n { assert k == 0; }
      }
      assert Incoming(CycleEdges(p), n) == {into};
      assert Outgoing(CycleEdges(p), n) == {out};
    } else {
      assert Incoming(CycleEdges(p), n) == {};
      assert Outgoing(CycleEdges(p), n) == {};
    }
  }

  /** The degree constraints are satisfiable exactly on cyclic graphs. */
  lemma DegreeSelectionIffCycle<V(!new)>(all: set<V>, edges: set<(V, V)>)
    requires forall e :: e in edges ==> e.0 in all && e.1 in all
    ensures !Acyclic(edges) <==>
            exists nodes, selected ::
              && {} < nodes <= all && selected <= edges
              && DegreesAreOne(all, nodes, selected)
  {
    if nodes, selected :| {} < nodes <= all && selected <= edges && DegreesAreOne(all, nodes, selected) {
      DegreeSelectionNeedsCycle(all, edges, nodes, selected);
    }
    if p :| IsCycle(edges, p) {
      var q := ShortenCycle(edges, p);
      forall n ensures |Incoming(CycleEdges(q), n)| == (if n in CycleNodes(q) then 1 else 0)
               ensures |Outgoing(CycleEdges(q), n)| == (if n in CycleNodes(q) then 1 else 0) {
        SimpleCycleDegrees(edges, q, n);
      }
      assert q[0] in CycleNodes(q);
      forall v | v in CycleNodes(q) ensures v in all {
        var i :| 0 <= i < |q| && q[i] == v;
        var j := if i == 0 then 0 else i - 1;
        assert (q[j], q[j + 1]) in edges;
      }
      assert CycleEdges(q) <= edges;
      assert DegreesAreOne(all, CycleNodes(q), CycleEdges(q));
    }
  }
}

/** Grouping the writes of a window that share a byte, directly or through other writes. */
module Components {
  import opened Events
  import opened Graphs
  import opened Executions
  import opened Symbolic

  lemma {:induction false} WalkStaysInside(writes: seq<TraceEvent>, inside: set<TraceEvent>, p: seq<TraceEvent>, n: nat)
    requires IsWalk(OverlapGraph(writes), p) && n < |p| && p[0] in inside
    requires forall a, b :: a in inside && b in writes && a.Overlaps(b) ==> b in inside
    ensures p[n] in inside
  {
    if n > 0 {
      WalkStaysInside(writes, inside, p, n - 1);
      assert (p[n - 1], p[n]) in OverlapGraph(writes);
    }
  }

  /** A closed set whose members are all reached from one of them is the class of each of them. */
  lemma ClosedSetIsClass(writes: seq<TraceEvent>, inside: set<TraceEvent>, seed: TraceEvent, w: TraceEvent)
    requires seed in inside && w in inside && forall v :: v in inside ==> v in writes
    requires forall a, b :: a in inside && b in writes && a.Overlaps(b) ==> b in inside
    requires forall v :: v in inside ==> v == seed || Reaches(OverlapGraph(writes), seed, v)
    ensures OverlapClass(writes, w) == inside
  {
    var graph := OverlapGraph(writes);
    forall v | v in OverlapClass(writes, w) ensures v in inside {
      if v != w {
        var p :| WalkFromTo(graph, p, w, v);
        WalkStaysInside(writes, inside, p, |p| - 1);
      }
    }
    forall v | v in inside ensures v in OverlapClass(writes, w) {
      if v != w {
        if w != seed { ReachesSymmetric(graph, seed, w); }
        if w != seed && v != seed { ReachesTransitive(graph, w, seed, v); }
      }
    }
  }

  ghost predicate Separate(a: set<TraceEvent>, b: set<TraceEvent>) {
    forall v, w :: v in a && w in b ==> !v.Overlaps(w)
  }

  /** The overlap class of one seed: all writes of `remaining` that a chain of overlaps links to it. */
  method Component(writes: seq<TraceEvent>, all: set<TraceEvent>, seed: TraceEvent)
    returns (component: set<TraceEvent>, remaining: set<TraceEvent>)
    requires seed in all && forall v :: v in all ==> v in writes
    requires forall v, w :: v in all && w in writes && v.Overlaps(w) ==> w in all
    ensures seed in component && component + remaining == all && component !! remaining
    ensures Separate(component, remaining)
    ensures forall w :: w in component ==> OverlapClass(writes, w) == component
  {
    component, remaining := {seed}, all - {seed};
    var pending := [seed];
    while pending != []
      invariant seed in component && component + remaining == all && component !! remaining
      invariant forall v :: v in pending ==> v in component
      invariant forall v :: v in component ==> v == seed || Reaches(OverlapGraph(writes), seed, v)
      invariant forall v, w :: v in component && v !in pending && w in remaining ==> !v.Overlaps(w)
      decreases remaining, |pending|
    {
      var current := pending[|pending| - 1];
      ghost var waiting := pending;
      pending := pending[..|pending| - 1];
      var connected := set other | other in remaining && current.Overlaps(other);
      forall v | v in connected ensures Reaches(OverlapGraph(writes), seed, v) {
        EdgeReaches(OverlapGraph(writes), current, v);
        if current != seed { ReachesTransitive(OverlapGraph(writes), seed, current, v); }
      }
      remaining := remaining - connected;
      component := component + connected;
      assert waiting == pending + [current];
      var order := Listed(connected);
      pending := pending + order;
    }
    forall w | w in component ensures OverlapClass(writes, w) == component {
      ClosedSetIsClass(writes, component, seed, w);
    }
  }

  method Listed(members: set<TraceEvent>) returns (order: seq<TraceEvent>)
    ensures forall v :: v in order <==> v in members
    ensures members == {} ==> order == []
  {
    order := [];
    var rest := members;
    while rest != {}
      invariant rest <= members && forall v :: v in order <==> v in members && v !in rest
      decreases rest
    {
      var v :| v in rest;
      order, rest := order + [v], rest - {v};
    }
    assert order != [] ==> order[0] in order;
  }

  method OverlapComponents(writes: seq<TraceEvent>) returns (groups: seq<seq<TraceEvent>>)
    requires Distinct(writes)
    ensures AreComponents(groups, writes)
  {
    groups := [];
    var remaining := set w | w in writes;
    while remaining != {}
      invariant forall w :: w in remaining ==> w in writes
      invariant forall v, w :: v in remaining && w in writes && v.Overlaps(w) ==> w in remaining
      invariant forall g :: g in groups ==> forall w :: w in g ==> w in writes && Arranges(g, OverlapClass(writes, w))
      invariant forall w :: w in writes && w !in remaining ==> exists g :: g in groups && w in g
      invariant forall g, h, w :: g in groups && h in groups && w in g && w in h ==> g == h
      invariant forall g, w :: g in groups && w in g ==> w !in remaining
      decreases remaining
    {
      var seed :| seed in remaining;
      var component, rest := Component(writes, remaining, seed);
      var group := Select(writes, w => w in component);
      forall w | w in group ensures Arranges(group, OverlapClass(writes, w)) {
        assert OverlapClass(writes, w) == component;
      }
      forall v, w | v in rest && w in writes && v.Overlaps(w) ensures w in rest {
        assert w.Overlaps(v);
      }
      ghost var before := groups;
      groups := groups + [group];
      forall w | w in writes && w !in rest ensures exists g :: g in groups && w in g {
        if w in component {
          assert group in groups && w in group;
        } else {
          var g :| g in before && w in g;
          assert g in groups;
        }
      }
      remaining := rest;
    }
  }
}

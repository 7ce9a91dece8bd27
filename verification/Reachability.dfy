/** Depth-first closures over block and call graphs. */
module Reachability {
  import opened Graphs

  type Arcs = set<(nat, nat)>

  ghost predicate Leads(arcs: Arcs, a: nat, b: nat) {
    a == b || Reaches(arcs, a, b)
  }

  lemma LeadsStep(arcs: Arcs, a: nat, b: nat, c: nat)
    requires Leads(arcs, a, b) && (b, c) in arcs
    ensures Leads(arcs, a, c)
  {
    EdgeReaches(arcs, b, c);
    if a != b { ReachesTransitive(arcs, a, b, c); }
  }

  lemma LeadsTransitive(arcs: Arcs, a: nat, b: nat, c: nat)
    requires Leads(arcs, a, b) && Leads(arcs, b, c)
    ensures Leads(arcs, a, c)
  {
    if a != b && b != c { ReachesTransitive(arcs, a, b, c); }
  }

  /** Everything that a closed set's members lead to is in the set. */
  lemma {:induction false} WalkStaysInside(arcs: Arcs, inside: set<nat>, p: seq<nat>, n: nat)
    requires IsWalk(arcs, p) && n < |p| && p[0] in inside
    requires forall e :: e in arcs && e.0 in inside ==> e.1 in inside
    ensures p[n] in inside
  {
    if n > 0 {
      WalkStaysInside(arcs, inside, p, n - 1);
      assert (p[n - 1], p[n]) in arcs;
    }
  }

  lemma ClosedSetHolds(arcs: Arcs, inside: set<nat>, a: nat, b: nat)
    requires a in inside && Leads(arcs, a, b)
    requires forall e :: e in arcs && e.0 in inside ==> e.1 in inside
    ensures b in inside
  {
    if a != b {
      var p :| WalkFromTo(arcs, p, a, b);
      WalkStaysInside(arcs, inside, p, |p| - 1);
    }
  }

  function Reversed(arcs: Arcs): Arcs {
    set a | a in arcs :: (a.1, a.0)
  }

  lemma {:induction false} ReversedWalk(arcs: Arcs, p: seq<nat>)
    requires IsWalk(arcs, p) && |p| >= 2
    ensures Reaches(Reversed(arcs), p[|p| - 1], p[0])
    decreases |p|
  {
    assert (p[0], p[1]) in arcs;
    assert (p[1], p[0]) in Reversed(arcs);
    EdgeReaches(Reversed(arcs), p[1], p[0]);
    if |p| > 2 {
      var q := p[1..];
      forall i | 0 <= i < |q| - 1 ensures (q[i], q[i + 1]) in arcs { assert (p[i + 1], p[i + 2]) in arcs; }
      ReversedWalk(arcs, q);
      ReachesTransitive(Reversed(arcs), p[|p| - 1], p[1], p[0]);
    }
  }

  lemma ReversedLeads(arcs: Arcs, a: nat, b: nat)
    ensures Leads(arcs, a, b) <==> Leads(Reversed(arcs), b, a)
  {
    if a != b {
      if Reaches(arcs, a, b) {
        var p :| WalkFromTo(arcs, p, a, b);
        ReversedWalk(arcs, p);
      }
      if Reaches(Reversed(arcs), b, a) {
        var p :| WalkFromTo(Reversed(arcs), p, b, a);
        ReversedWalk(Reversed(arcs), p);
        assert Reversed(Reversed(arcs)) == arcs by { ReversedTwice(arcs); }
      }
    }
  }

  lemma ReversedTwice(arcs: Arcs)
    ensures Reversed(Reversed(arcs)) == arcs
  {
    forall a: nat, b: nat ensures (a, b) in Reversed(Reversed(arcs)) <==> (a, b) in arcs {
      if (a, b) in arcs { assert (b, a) in Reversed(arcs); }
    }
  }

  ghost predicate LedFrom(arcs: Arcs, starts: seq<nat>, v: nat) {
    exists s :: s in starts && Leads(arcs, s, v)
  }

  function Ends(arcs: Arcs): set<nat> {
    set e | e in arcs :: e.1
  }

  /** Visited nodes have been expanded; pending ones are still to be looked at. */
  ghost predicate ClosureInv(arcs: Arcs, starts: seq<nat>, visited: set<nat>, pending: seq<nat>) {
    && (forall v :: v in visited || v in pending ==> LedFrom(arcs, starts, v))
    && (forall s :: s in starts ==> s in visited || s in pending)
    && (forall e :: e in arcs && e.0 in visited ==> e.1 in visited || e.1 in pending)
  }

  /** v moves from the pending nodes to the visited ones, and its targets become pending. */
  lemma Expand(arcs: Arcs, starts: seq<nat>, visited: set<nat>, before: seq<nat>, after: seq<nat>, v: nat)
    requires ClosureInv(arcs, starts, visited, before) && v in before
    requires forall x :: x in before ==> x in after || x == v
    requires forall x :: x in after ==> x in before || (v, x) in arcs
    requires forall e :: e in arcs && e.0 == v ==> e.1 in after
    ensures ClosureInv(arcs, starts, visited + {v}, after)
  {
    forall x | x in visited + {v} || x in after ensures LedFrom(arcs, starts, x) {
      if x !in visited && x !in before {
        assert LedFrom(arcs, starts, v);
        var s :| s in starts && Leads(arcs, s, v);
        LeadsStep(arcs, s, v, x);
      }
    }
  }

  lemma Revisit(arcs: Arcs, starts: seq<nat>, visited: set<nat>, before: seq<nat>, after: seq<nat>, v: nat)
    requires ClosureInv(arcs, starts, visited, before) && v in visited
    requires forall x :: x in before ==> x in after || x == v
    requires forall x :: x in after ==> x in before
    ensures ClosureInv(arcs, starts, visited, after)
  {
  }

  lemma ClosureIsExact(arcs: Arcs, starts: seq<nat>, visited: set<nat>)
    requires ClosureInv(arcs, starts, visited, [])
    ensures forall v :: v in visited <==> LedFrom(arcs, starts, v)
  {
    forall v | LedFrom(arcs, starts, v) ensures v in visited {
      var s :| s in starts && Leads(arcs, s, v);
      ClosedSetHolds(arcs, visited, s, v);
    }
  }

  method Successors(arcs: Arcs, v: nat) returns (next: seq<nat>)
    ensures forall w :: w in next <==> (v, w) in arcs
    ensures forall w :: w in next ==> w in Ends(arcs)
  {
    next := [];
    var left := set e | e in arcs && e.0 == v;
    ghost var all := left;
    while left != {}
      invariant left <= all
      invariant forall w :: w in next <==> (v, w) in all && (v, w) !in left
    {
      var e :| e in left;
      assert e == (v, e.1);
      next := next + [e.1];
      left := left - {e};
    }
    forall w | w in next ensures w in Ends(arcs) { assert (v, w).1 in Ends(arcs); }
  }

  method Listed(members: set<nat>) returns (list: seq<nat>)
    ensures forall m :: m in list <==> m in members
  {
    list := [];
    var left := members;
    while left != {}
      invariant left <= members && forall m :: m in list <==> m in members && m !in left
    {
      var m :| m in left;
      list := list + [m];
      left := left - {m};
    }
  }

  /** Everything that can ever become pending. */
  ghost function Known(arcs: Arcs, starts: seq<nat>): set<nat> {
    (set s | s in starts) + Ends(arcs)
  }

  ghost predicate AreKnown(arcs: Arcs, starts: seq<nat>, pending: seq<nat>) {
    forall v :: v in pending ==> v in Known(arcs, starts)
  }

  /** Takes the last pending node; a new one is visited and expanded. */
  method VisitLast(arcs: Arcs, ghost starts: seq<nat>, visited: set<nat>, pending: seq<nat>)
    returns (visited': set<nat>, pending': seq<nat>)
    requires ClosureInv(arcs, starts, visited, pending) && AreKnown(arcs, starts, pending) && pending != []
    ensures ClosureInv(arcs, starts, visited', pending') && AreKnown(arcs, starts, pending')
    ensures visited' == visited + {pending[|pending| - 1]} && pending[|pending| - 1] in Known(arcs, starts)
    ensures pending[|pending| - 1] in visited ==> |pending'| < |pending|
  {
    var v := pending[|pending| - 1];
    assert pending == pending[..|pending| - 1] + [v];
    if v in visited {
      visited', pending' := visited, pending[..|pending| - 1];
      Revisit(arcs, starts, visited, pending, pending', v);
    } else {
      var next := Successors(arcs, v);
      visited', pending' := visited + {v}, pending[..|pending| - 1] + next;
      Expand(arcs, starts, visited, pending, pending', v);
    }
  }

  lemma NothingVisited(arcs: Arcs, starts: seq<nat>)
    ensures ClosureInv(arcs, starts, {}, starts) && AreKnown(arcs, starts, starts)
  {
    forall s | s in starts ensures LedFrom(arcs, starts, s) { assert Leads(arcs, s, s); }
  }

  /** All nodes that the starts lead to. */
  method Closure(arcs: Arcs, starts: seq<nat>) returns (visited: set<nat>)
    ensures forall v :: v in visited <==> LedFrom(arcs, starts, v)
  {
    visited := {};
    var pending := starts;
    NothingVisited(arcs, starts);
    while pending != []
      invariant ClosureInv(arcs, starts, visited, pending) && AreKnown(arcs, starts, pending)
      decreases Known(arcs, starts) - visited, |pending|
    {
      visited, pending := VisitLast(arcs, starts, visited, pending);
    }
    ClosureIsExact(arcs, starts, visited);
  }

  lemma LedFromOne(arcs: Arcs, a: nat, b: nat)
    ensures LedFrom(arcs, [a], b) <==> Leads(arcs, a, b)
  {
    if Leads(arcs, a, b) { assert a in [a]; }
  }

  /** Whether a leads to b; stops as soon as b turns up. */
  method PathExists(arcs: Arcs, a: nat, b: nat) returns (found: bool)
    ensures found <==> Leads(arcs, a, b)
  {
    var visited: set<nat>, pending := {}, [a];
    NothingVisited(arcs, [a]);
    LedFromOne(arcs, a, b);
    while pending != []
      invariant ClosureInv(arcs, [a], visited, pending) && AreKnown(arcs, [a], pending) && b !in visited
      decreases Known(arcs, [a]) - visited, |pending|
    {
      if pending[|pending| - 1] == b {
        return true;
      }
      visited, pending := VisitLast(arcs, [a], visited, pending);
    }
    ClosureIsExact(arcs, [a], visited);
    found := false;
  }
}

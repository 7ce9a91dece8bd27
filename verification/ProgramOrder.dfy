/** The sparse program order of a control-flow graph: neighbours inside a block, and the next events
    after it through any number of blocks without events. */
module ProgramOrder {
  import opened Graphs
  import opened Reachability

  /** isCall marks the effects that take place after the implicit stack write of a call. */
  datatype Event = Event(pc: nat, isCall: bool, id: nat)

  /** A thread role and the address of a block. */
  type Place = (nat, nat)

  predicate KeyLess(a: Event, b: Event) {
    || a.pc < b.pc
    || (a.pc == b.pc && !a.isCall && b.isCall)
    || (a.pc == b.pc && a.isCall == b.isCall && a.id < b.id)
  }

  ghost predicate SortedByKey(events: seq<Event>) {
    forall i, j :: 0 <= i < j < |events| ==> KeyLess(events[i], events[j])
  }

  function InsertByKey(events: seq<Event>, e: Event): (r: seq<Event>)
    requires SortedByKey(events) && forall x :: x in events ==> x.id != e.id
    ensures SortedByKey(r) && forall x :: x in r <==> x == e || x in events
  {
    if events == [] || KeyLess(e, events[0]) then [e] + events
    else
      var rest := InsertByKey(events[1..], e);
      assert forall x :: x in events <==> x == events[0] || x in events[1..];
      assert KeyLess(events[0], e) by { assert events[0] in events; }
      assert forall x :: x in rest ==> KeyLess(events[0], x);
      [events[0]] + rest
  }

  ghost predicate DistinctIds(events: seq<Event>) {
    forall i, j :: 0 <= i < j < |events| ==> events[i].id != events[j].id
  }

  function SortEvents(events: seq<Event>): (r: seq<Event>)
    requires DistinctIds(events)
    ensures SortedByKey(r) && forall x :: x in r <==> x in events
  {
    if events == [] then [] else
      var last := events[|events| - 1];
      assert events == events[..|events| - 1] + [last];
      InsertByKey(SortEvents(events[..|events| - 1]), last)
  }

  /** Events have distinct ids, and each belongs to one place. */
  ghost predicate ValidPlaces(at: map<Place, seq<Event>>) {
    && (forall p :: p in at ==> DistinctIds(at[p]))
    && (forall p, q, e :: p in at && q in at && e in at[p] && e in at[q] ==> p == q)
  }

  ghost function Ordered(at: map<Place, seq<Event>>): map<Place, seq<Event>>
    requires ValidPlaces(at)
  {
    map p | p in at :: SortEvents(at[p])
  }

  // ----- The two orders -----

  /** e is event number i of the role's block b. */
  ghost predicate At(ordered: map<Place, seq<Event>>, r: nat, b: nat, i: int, e: Event) {
    (r, b) in ordered && 0 <= i < |ordered[(r, b)]| && ordered[(r, b)][i] == e
  }

  predicate Occupied(at: map<Place, seq<Event>>, r: nat, b: nat) {
    (r, b) in at && at[(r, b)] != []
  }

  /** A path from b to c with no events of the role in between. */
  ghost predicate Skips(arcs: Arcs, ordered: map<Place, seq<Event>>, r: nat, b: nat, c: nat) {
    exists p :: SkipsAlong(arcs, ordered, r, p, b, c)
  }

  ghost predicate SkipsAlong(arcs: Arcs, ordered: map<Place, seq<Event>>, r: nat, p: seq<nat>, b: nat, c: nat) {
    WalkFromTo(arcs, p, b, c) && forall k :: 0 < k < |p| - 1 ==> !Occupied(ordered, r, p[k])
  }

  ghost predicate FollowsInBlock(ordered: map<Place, seq<Event>>, e: Event, f: Event) {
    exists r, b, i :: At(ordered, r, b, i, e) && At(ordered, r, b, i + 1, f)
  }

  ghost predicate IsLastOf(ordered: map<Place, seq<Event>>, r: nat, b: nat, e: Event) {
    (r, b) in ordered && At(ordered, r, b, |ordered[(r, b)]| - 1, e)
  }

  ghost predicate FollowsBlock(arcs: Arcs, ordered: map<Place, seq<Event>>, e: Event, f: Event) {
    exists r, b, c :: IsLastOf(ordered, r, b, e) && At(ordered, r, c, 0, f) && Skips(arcs, ordered, r, b, c)
  }

  ghost predicate AreSparseEdges(arcs: Arcs, ordered: map<Place, seq<Event>>, edges: set<(Event, Event)>) {
    forall e, f :: (e, f) in edges <==> FollowsInBlock(ordered, e, f) || FollowsBlock(arcs, ordered, e, f)
  }

  /** Control flow can execute f after e. */
  ghost predicate CanFollow(arcs: Arcs, ordered: map<Place, seq<Event>>, e: Event, f: Event) {
    exists r, b, c, i, j :: CanFollowAt(arcs, ordered, e, f, r, b, c, i, j)
  }

  ghost predicate CanFollowAt(arcs: Arcs, ordered: map<Place, seq<Event>>, e: Event, f: Event, r: nat, b: nat, c: nat,
                              i: int, j: int) {
    At(ordered, r, b, i, e) && At(ordered, r, c, j, f) && ((b == c && i < j) || Reaches(arcs, b, c))
  }

  ghost predicate PlacesAreUnique(ordered: map<Place, seq<Event>>) {
    forall r, b, i, q, c, j, e :: At(ordered, r, b, i, e) && At(ordered, q, c, j, e) ==> r == q && b == c && i == j
  }

  lemma OrderedPlacesAreUnique(at: map<Place, seq<Event>>)
    requires ValidPlaces(at)
    ensures PlacesAreUnique(Ordered(at))
  {
    var ordered := Ordered(at);
    forall r, b, i, q, c, j, e | At(ordered, r, b, i, e) && At(ordered, q, c, j, e)
      ensures r == q && b == c && i == j {
      assert e in SortEvents(at[(r, b)]) && e in SortEvents(at[(q, c)]);
      assert (r, b) == (q, c);
      assert SortedByKey(SortEvents(at[(r, b)]));
    }
  }

  // ----- Sparse edges follow control flow -----

  lemma EdgeCanFollow(arcs: Arcs, ordered: map<Place, seq<Event>>, e: Event, f: Event)
    requires FollowsInBlock(ordered, e, f) || FollowsBlock(arcs, ordered, e, f)
    ensures CanFollow(arcs, ordered, e, f)
  {
    if FollowsInBlock(ordered, e, f) {
      var r, b, i :| At(ordered, r, b, i, e) && At(ordered, r, b, i + 1, f);
      assert CanFollowAt(arcs, ordered, e, f, r, b, b, i, i + 1);
    } else {
      var r, b, c :| IsLastOf(ordered, r, b, e) && At(ordered, r, c, 0, f) && Skips(arcs, ordered, r, b, c);
      assert CanFollowAt(arcs, ordered, e, f, r, b, c, |ordered[(r, b)]| - 1, 0);
    }
  }

  lemma CanFollowTransitive(arcs: Arcs, ordered: map<Place, seq<Event>>, e: Event, f: Event, g: Event)
    requires PlacesAreUnique(ordered) && CanFollow(arcs, ordered, e, f) && CanFollow(arcs, ordered, f, g)
    ensures CanFollow(arcs, ordered, e, g)
  {
    var r, b, c, i, j :| CanFollowAt(arcs, ordered, e, f, r, b, c, i, j);
    var q, c', d, j', k :| CanFollowAt(arcs, ordered, f, g, q, c', d, j', k);
    assert At(ordered, r, c, j, f) && At(ordered, q, c', j', f);
    assert q == r && c' == c && j' == j;
    if Reaches(arcs, b, c) && Reaches(arcs, c, d) { ReachesTransitive(arcs, b, c, d); }
    assert CanFollowAt(arcs, ordered, e, g, r, b, d, i, k);
  }

  lemma {:induction false} WalkCanFollow(arcs: Arcs, ordered: map<Place, seq<Event>>, edges: set<(Event, Event)>,
                                         p: seq<Event>, n: nat)
    requires PlacesAreUnique(ordered) && AreSparseEdges(arcs, ordered, edges) && IsWalk(edges, p) && 1 <= n < |p|
    ensures CanFollow(arcs, ordered, p[0], p[n])
  {
    assert (p[n - 1], p[n]) in edges;
    EdgeCanFollow(arcs, ordered, p[n - 1], p[n]);
    if n > 1 {
      WalkCanFollow(arcs, ordered, edges, p, n - 1);
      CanFollowTransitive(arcs, ordered, p[0], p[n - 1], p[n]);
    }
  }

  // ----- Control flow is covered by sparse edges -----

  lemma {:induction false} ChainInBlock(arcs: Arcs, ordered: map<Place, seq<Event>>, edges: set<(Event, Event)>,
                                        r: nat, b: nat, i: nat, j: nat, e: Event, f: Event)
    requires AreSparseEdges(arcs, ordered, edges) && i < j && At(ordered, r, b, i, e) && At(ordered, r, b, j, f)
    ensures Reaches(edges, e, f)
  {
    var before := ordered[(r, b)][j - 1];
    assert At(ordered, r, b, j - 1, before) && At(ordered, r, b, j - 1 + 1, f);
    assert FollowsInBlock(ordered, before, f);
    EdgeReaches(edges, before, f);
    if i < j - 1 {
      ChainInBlock(arcs, ordered, edges, r, b, i, j - 1, e, before);
      ReachesTransitive(edges, e, before, f);
    }
  }

  /** From anywhere in a block to its last event, and from its first event to anywhere. */
  lemma ToLast(arcs: Arcs, ordered: map<Place, seq<Event>>, edges: set<(Event, Event)>, r: nat, b: nat, i: nat,
               e: Event, g: Event)
    requires AreSparseEdges(arcs, ordered, edges) && At(ordered, r, b, i, e)
    requires Reaches(edges, ordered[(r, b)][|ordered[(r, b)]| - 1], g)
    ensures Reaches(edges, e, g)
  {
    var last := |ordered[(r, b)]| - 1;
    if i < last {
      ChainInBlock(arcs, ordered, edges, r, b, i, last, e, ordered[(r, b)][last]);
      ReachesTransitive(edges, e, ordered[(r, b)][last], g);
    }
  }

  lemma FromFirst(arcs: Arcs, ordered: map<Place, seq<Event>>, edges: set<(Event, Event)>, r: nat, c: nat, j: nat,
                  f: Event, e: Event)
    requires AreSparseEdges(arcs, ordered, edges) && At(ordered, r, c, j, f)
    requires Reaches(edges, e, ordered[(r, c)][0])
    ensures Reaches(edges, e, f)
  {
    if j > 0 {
      ChainInBlock(arcs, ordered, edges, r, c, 0, j, ordered[(r, c)][0], f);
      ReachesTransitive(edges, e, ordered[(r, c)][0], f);
    }
  }

  lemma FirstOccupied(ordered: map<Place, seq<Event>>, r: nat, p: seq<nat>) returns (k: nat)
    requires |p| >= 2 && Occupied(ordered, r, p[|p| - 1])
    ensures 0 < k < |p| && Occupied(ordered, r, p[k]) && forall m :: 0 < m < k ==> !Occupied(ordered, r, p[m])
  {
    k := 1;
    while !Occupied(ordered, r, p[k])
      invariant 0 < k < |p| && forall m :: 0 < m < k ==> !Occupied(ordered, r, p[m])
      decreases |p| - k
    {
      k := k + 1;
    }
  }

  /** A path between occupied blocks is a chain of paths that skip only empty ones. */
  lemma {:induction false} PathIsCovered(arcs: Arcs, ordered: map<Place, seq<Event>>, edges: set<(Event, Event)>,
                                         r: nat, p: seq<nat>)
    requires AreSparseEdges(arcs, ordered, edges) && |p| >= 2 && IsWalk(arcs, p)
    requires Occupied(ordered, r, p[0]) && Occupied(ordered, r, p[|p| - 1])
    ensures Reaches(edges, ordered[(r, p[0])][|ordered[(r, p[0])]| - 1], ordered[(r, p[|p| - 1])][0])
    decreases |p|
  {
    var k := FirstOccupied(ordered, r, p);
    var head, tail := p[..k + 1], p[k..];
    forall i | 0 <= i < |head| - 1 ensures (head[i], head[i + 1]) in arcs { assert (p[i], p[i + 1]) in arcs; }
    forall i | 0 <= i < |tail| - 1 ensures (tail[i], tail[i + 1]) in arcs { assert (p[k + i], p[k + i + 1]) in arcs; }
    assert SkipsAlong(arcs, ordered, r, head, p[0], p[k]);
    var last, first := ordered[(r, p[0])][|ordered[(r, p[0])]| - 1], ordered[(r, p[k])][0];
    assert IsLastOf(ordered, r, p[0], last) && At(ordered, r, p[k], 0, first);
    assert FollowsBlock(arcs, ordered, last, first);
    EdgeReaches(edges, last, first);
    if k < |p| - 1 {
      PathIsCovered(arcs, ordered, edges, r, tail);
      var end := ordered[(r, p[|p| - 1])][0];
      ToLast(arcs, ordered, edges, r, p[k], 0, first, end);
      ReachesTransitive(edges, last, first, end);
    }
  }

  /** The sparse edges order two events exactly when control flow can execute the second after the first. */
  lemma SparseEdgesAreCfgOrder(arcs: Arcs, ordered: map<Place, seq<Event>>, edges: set<(Event, Event)>, e: Event,
                               f: Event)
    requires PlacesAreUnique(ordered) && AreSparseEdges(arcs, ordered, edges)
    ensures Reaches(edges, e, f) <==> CanFollow(arcs, ordered, e, f)
  {
    if Reaches(edges, e, f) {
      var p :| WalkFromTo(edges, p, e, f);
      WalkCanFollow(arcs, ordered, edges, p, |p| - 1);
    }
    if CanFollow(arcs, ordered, e, f) {
      var r, b, c, i, j :| CanFollowAt(arcs, ordered, e, f, r, b, c, i, j);
      if b == c && i < j {
        ChainInBlock(arcs, ordered, edges, r, b, i, j, e, f);
      } else {
        var p :| WalkFromTo(arcs, p, b, c);
        PathIsCovered(arcs, ordered, edges, r, p);
        FromFirst(arcs, ordered, edges, r, c, j, f, ordered[(r, b)][|ordered[(r, b)]| - 1]);
        ToLast(arcs, ordered, edges, r, b, i, e, f);
      }
    }
  }

  // ----- Collecting the edges -----

  /** The arcs that the search follows: it does not go on from a block with events. */
  ghost function EmptyArcs(arcs: Arcs, ordered: map<Place, seq<Event>>, r: nat): Arcs {
    set a | a in arcs && !Occupied(ordered, r, a.0)
  }

  lemma LedIsSkipped(arcs: Arcs, ordered: map<Place, seq<Event>>, r: nat, b: nat, s: nat, c: nat)
    requires (b, s) in arcs && Leads(EmptyArcs(arcs, ordered, r), s, c)
    ensures Skips(arcs, ordered, r, b, c)
  {
    if s == c {
      assert SkipsAlong(arcs, ordered, r, [b, c], b, c);
    } else {
      var p :| WalkFromTo(EmptyArcs(arcs, ordered, r), p, s, c);
      var q := [b] + p;
      forall i | 0 <= i < |q| - 1 ensures (q[i], q[i + 1]) in arcs {
        if i > 0 { assert (p[i - 1], p[i]) in EmptyArcs(arcs, ordered, r); }
      }
      forall k | 0 < k < |q| - 1 ensures !Occupied(ordered, r, q[k]) {
        assert (p[k - 1], p[k]) in EmptyArcs(arcs, ordered, r);
      }
      assert SkipsAlong(arcs, ordered, r, q, b, c);
    }
  }

  lemma SkippedIsLed(arcs: Arcs, ordered: map<Place, seq<Event>>, r: nat, b: nat, starts: seq<nat>, c: nat)
    requires Skips(arcs, ordered, r, b, c) && forall s :: s in starts <==> (b, s) in arcs
    ensures LedFrom(EmptyArcs(arcs, ordered, r), starts, c)
  {
    var p :| SkipsAlong(arcs, ordered, r, p, b, c);
    var q := p[1..];
    assert (p[0], p[1]) in arcs;
    if |q| > 1 {
      forall i | 0 <= i < |q| - 1 ensures (q[i], q[i + 1]) in EmptyArcs(arcs, ordered, r) {
        assert (p[i + 1], p[i + 2]) in arcs;
      }
      assert WalkFromTo(EmptyArcs(arcs, ordered, r), q, p[1], c);
    }
    assert Leads(EmptyArcs(arcs, ordered, r), p[1], c);
  }

  ghost predicate IsNextEvent(arcs: Arcs, ordered: map<Place, seq<Event>>, r: nat, b: nat, f: Event) {
    exists c :: At(ordered, r, c, 0, f) && Skips(arcs, ordered, r, b, c)
  }

  lemma OccupiedStaysOccupied(at: map<Place, seq<Event>>, r: nat, b: nat)
    requires ValidPlaces(at)
    ensures Occupied(at, r, b) <==> Occupied(Ordered(at), r, b)
  {
    if Occupied(at, r, b) { assert at[(r, b)][0] in SortEvents(at[(r, b)]); }
    if Occupied(Ordered(at), r, b) { assert SortEvents(at[(r, b)])[0] in at[(r, b)]; }
  }

  ghost predicate FirstsOf(ordered: map<Place, seq<Event>>, r: nat, visited: set<nat>, targets: set<Event>) {
    forall f :: f in targets <==> exists c :: c in visited && At(ordered, r, c, 0, f)
  }

  lemma FirstsGrow(ordered: map<Place, seq<Event>>, r: nat, visited: set<nat>, targets: set<Event>, v: nat)
    requires FirstsOf(ordered, r, visited, targets)
    ensures Occupied(ordered, r, v) ==> FirstsOf(ordered, r, visited + {v}, targets + {ordered[(r, v)][0]})
    ensures !Occupied(ordered, r, v) ==> FirstsOf(ordered, r, visited + {v}, targets)
  {
    if Occupied(ordered, r, v) {
      forall f ensures f in targets + {ordered[(r, v)][0]} <==> exists c ::
        c in visited + {v} && At(ordered, r, c, 0, f) {
        if f == ordered[(r, v)][0] { assert At(ordered, r, v, 0, f); }
      }
    }
  }

  /** Empty blocks that were visited have been expanded, and the first events of the others were collected. */
  ghost predicate SkipInv(arcs: Arcs, ordered: map<Place, seq<Event>>, r: nat, starts: seq<nat>, visited: set<nat>,
                          pending: seq<nat>, targets: set<Event>) {
    && ClosureInv(EmptyArcs(arcs, ordered, r), starts, visited, pending) && FirstsOf(ordered, r, visited, targets)
    && forall v :: v in pending ==> v in Ends(arcs)
  }

  lemma NothingSkipped(arcs: Arcs, ordered: map<Place, seq<Event>>, r: nat, starts: seq<nat>)
    requires forall v :: v in starts ==> v in Ends(arcs)
    ensures SkipInv(arcs, ordered, r, starts, {}, starts, {})
  {
    NothingVisited(EmptyArcs(arcs, ordered, r), starts);
  }

  /** Looks at the first pending block. */
  method SkipFirst(arcs: Arcs, at: map<Place, seq<Event>>, r: nat, ghost starts: seq<nat>, visited: set<nat>,
                   pending: seq<nat>, targets: set<Event>)
    returns (visited': set<nat>, pending': seq<nat>, targets': set<Event>)
    requires ValidPlaces(at) && pending != [] && SkipInv(arcs, Ordered(at), r, starts, visited, pending, targets)
    ensures SkipInv(arcs, Ordered(at), r, starts, visited', pending', targets')
    ensures visited' == visited + {pending[0]} && pending[0] in Ends(arcs)
    ensures pending[0] in visited ==> |pending'| < |pending|
  {
    ghost var empty := EmptyArcs(arcs, Ordered(at), r);
    var v := pending[0];
    assert pending == [v] + pending[1..];
    visited', pending', targets' := visited + {v}, pending[1..], targets;
    if v in visited {
      Revisit(empty, starts, visited, pending, pending', v);
      assert visited' == visited;
      return;
    }
    OccupiedStaysOccupied(at, r, v);
    FirstsGrow(Ordered(at), r, visited, targets, v);
    if Occupied(at, r, v) {
      targets' := targets + {SortEvents(at[(r, v)])[0]};
    } else {
      var next := Successors(arcs, v);
      pending' := pending' + next;
    }
    Expand(empty, starts, visited, pending, pending', v);
  }

  /** The first events met on the ways out of a block. */
  method NextEvents(arcs: Arcs, at: map<Place, seq<Event>>, r: nat, b: nat) returns (targets: set<Event>)
    requires ValidPlaces(at)
    ensures forall f :: f in targets <==> IsNextEvent(arcs, Ordered(at), r, b, f)
  {
    ghost var ordered := Ordered(at);
    targets := {};
    var visited: set<nat> := {};
    var pending := Successors(arcs, b);
    ghost var starts := pending;
    NothingSkipped(arcs, ordered, r, starts);
    while pending != []
      invariant SkipInv(arcs, ordered, r, starts, visited, pending, targets)
      decreases Ends(arcs) - visited, |pending|
    {
      visited, pending, targets := SkipFirst(arcs, at, r, starts, visited, pending, targets);
    }
    ClosureIsExact(EmptyArcs(arcs, ordered, r), starts, visited);
    forall f ensures f in targets <==> IsNextEvent(arcs, ordered, r, b, f) {
      ReachedFirsts(arcs, ordered, r, b, starts, visited, targets, f);
    }
  }

  lemma ReachedFirsts(arcs: Arcs, ordered: map<Place, seq<Event>>, r: nat, b: nat, starts: seq<nat>,
                      visited: set<nat>, targets: set<Event>, f: Event)
    requires FirstsOf(ordered, r, visited, targets) && forall s :: s in starts <==> (b, s) in arcs
    requires forall v :: v in visited <==> LedFrom(EmptyArcs(arcs, ordered, r), starts, v)
    ensures f in targets <==> IsNextEvent(arcs, ordered, r, b, f)
  {
    if c: nat :| c in visited && At(ordered, r, c, 0, f) {
      var s :| s in starts && Leads(EmptyArcs(arcs, ordered, r), s, c);
      LedIsSkipped(arcs, ordered, r, b, s, c);
    }
    if c: nat :| At(ordered, r, c, 0, f) && Skips(arcs, ordered, r, b, c) {
      SkippedIsLed(arcs, ordered, r, b, starts, c);
    }
  }

  ghost predicate PlaceEdge(arcs: Arcs, ordered: map<Place, seq<Event>>, p: Place, e: Event, f: Event) {
    || (exists i :: At(ordered, p.0, p.1, i, e) && At(ordered, p.0, p.1, i + 1, f))
    || (IsLastOf(ordered, p.0, p.1, e) && IsNextEvent(arcs, ordered, p.0, p.1, f))
  }

  /** The edges that start in one block. */
  method EdgesOfPlace(arcs: Arcs, at: map<Place, seq<Event>>, p: Place) returns (edges: set<(Event, Event)>)
    requires ValidPlaces(at) && p in at
    ensures forall e, f :: (e, f) in edges <==> PlaceEdge(arcs, Ordered(at), p, e, f)
  {
    ghost var ordered := Ordered(at);
    var events := SortEvents(at[p]);
    assert p == (p.0, p.1);
    edges := {};
    for n := 0 to |events|
      invariant forall e, f :: (e, f) in edges <==>
                  exists i :: 0 <= i < n && At(ordered, p.0, p.1, i, e) && At(ordered, p.0, p.1, i + 1, f)
    {
      if n + 1 < |events| {
        edges := edges + {(events[n], events[n + 1])};
        assert At(ordered, p.0, p.1, n, events[n]) && At(ordered, p.0, p.1, n + 1, events[n + 1]);
      }
    }
    if events == [] {
      return;
    }
    var source := events[|events| - 1];
    var targets := NextEvents(arcs, at, p.0, p.1);
    edges := edges + set f | f in targets :: (source, f);
  }

  method ProgramOrderEdges(arcs: Arcs, at: map<Place, seq<Event>>) returns (edges: set<(Event, Event)>)
    requires ValidPlaces(at)
    ensures AreSparseEdges(arcs, Ordered(at), edges)
  {
    ghost var ordered := Ordered(at);
    edges := {};
    var left := at.Keys;
    while left != {}
      invariant left <= at.Keys
      invariant forall e, f :: (e, f) in edges <==> exists p ::
        p in at && p !in left && PlaceEdge(arcs, ordered, p, e, f)
    {
      var p :| p in left;
      left := left - {p};
      var more := EdgesOfPlace(arcs, at, p);
      edges := edges + more;
    }
    forall e, f ensures (e, f) in edges <==> FollowsInBlock(ordered, e, f) || FollowsBlock(arcs, ordered, e, f) {
      EdgesOfAllPlaces(arcs, at, e, f);
    }
  }

  lemma EdgesOfAllPlaces(arcs: Arcs, at: map<Place, seq<Event>>, e: Event, f: Event)
    requires ValidPlaces(at)
    ensures (exists p :: p in at && PlaceEdge(arcs, Ordered(at), p, e, f))
       <==> FollowsInBlock(Ordered(at), e, f) || FollowsBlock(arcs, Ordered(at), e, f)
  {
    var ordered := Ordered(at);
    if r: nat, b: nat, i :| At(ordered, r, b, i, e) && At(ordered, r, b, i + 1, f) {
      assert PlaceEdge(arcs, ordered, (r, b), e, f);
    }
    if r: nat, b: nat, c: nat :|
      IsLastOf(ordered, r, b, e) && At(ordered, r, c, 0, f) && Skips(arcs, ordered, r, b, c) {
      assert IsNextEvent(arcs, ordered, r, b, f);
      assert PlaceEdge(arcs, ordered, (r, b), e, f);
    }
  }

  // ----- The same by addresses -----

  /** e comes before f in their block: at a lower address; at the same address effects of a call come last, and
      otherwise the ids decide. */
  predicate IsEarlier(e: Event, f: Event) {
    if e.pc != f.pc then e.pc < f.pc
    else if e.isCall != f.isCall then f.isCall
    else e.id < f.id
  }

  lemma SortedByAddress(events: seq<Event>, i: nat, j: nat)
    requires DistinctIds(events) && i < |SortEvents(events)| && j < |SortEvents(events)|
    ensures i < j <==> IsEarlier(SortEvents(events)[i], SortEvents(events)[j])
  {
    var sorted := SortEvents(events);
    assert i < j ==> KeyLess(sorted[i], sorted[j]);
    assert j < i ==> KeyLess(sorted[j], sorted[i]);
  }

  lemma PositionOf(at: map<Place, seq<Event>>, p: Place, e: Event) returns (i: nat)
    requires ValidPlaces(at) && p in at && e in at[p]
    ensures At(Ordered(at), p.0, p.1, i, e)
  {
    assert e in SortEvents(at[p]) && p == (p.0, p.1);
    i :| 0 <= i < |SortEvents(at[p])| && SortEvents(at[p])[i] == e;
  }

  /** In the edges f is reached from e exactly if both belong to one role, and f's address follows e's in their block
      or control flow leads from e's block to f's. */
  lemma EdgesAreAddressOrder(arcs: Arcs, at: map<Place, seq<Event>>, edges: set<(Event, Event)>, p: Place, e: Event,
                             q: Place, f: Event)
    requires ValidPlaces(at) && AreSparseEdges(arcs, Ordered(at), edges)
    requires p in at && e in at[p] && q in at && f in at[q]
    ensures Reaches(edges, e, f) <==> p.0 == q.0 && ((p.1 == q.1 && IsEarlier(e, f)) || Reaches(arcs, p.1, q.1))
  {
    var ordered := Ordered(at);
    OrderedPlacesAreUnique(at);
    SparseEdgesAreCfgOrder(arcs, ordered, edges, e, f);
    var i := PositionOf(at, p, e);
    var j := PositionOf(at, q, f);
    if p == q { SortedByAddress(at[p], i, j); }
    assert CanFollow(arcs, ordered, e, f) <==> p.0 == q.0 && CanFollowAt(arcs, ordered, e, f, p.0, p.1, q.1, i, j);
  }

  /** Blocks without events of the role lie on the way from block b to block c. */
  ghost predicate PassesEmpty(arcs: Arcs, at: map<Place, seq<Event>>, r: nat, b: nat, c: nat) {
    exists w :: WalkFromTo(arcs, w, b, c) && forall k :: 0 < k < |w| - 1 ==> (r, w[k]) !in at || at[(r, w[k])] == []
  }

  lemma SkipsIffEmpty(arcs: Arcs, at: map<Place, seq<Event>>, r: nat, b: nat, c: nat)
    requires ValidPlaces(at)
    ensures Skips(arcs, Ordered(at), r, b, c) <==> PassesEmpty(arcs, at, r, b, c)
  {
    forall d: nat ensures Occupied(Ordered(at), r, d) <==> (r, d) in at && at[(r, d)] != [] {
      OccupiedStaysOccupied(at, r, d);
    }
    if w :| SkipsAlong(arcs, Ordered(at), r, w, b, c) {
      assert WalkFromTo(arcs, w, b, c);
    }
    if w :| WalkFromTo(arcs, w, b, c) && forall k :: 0 < k < |w| - 1 ==> (r, w[k]) !in at || at[(r, w[k])] == [] {
      assert SkipsAlong(arcs, Ordered(at), r, w, b, c);
    }
  }

  /** An edge leads to the next address of the block, or from the last address of a block to the first of another that
      is reached through blocks without events. */
  lemma EdgesByAddress(arcs: Arcs, at: map<Place, seq<Event>>, edges: set<(Event, Event)>, p: Place, e: Event,
                       q: Place, f: Event)
    requires ValidPlaces(at) && AreSparseEdges(arcs, Ordered(at), edges)
    requires p in at && e in at[p] && q in at && f in at[q]
    ensures (e, f) in edges
       <==> (p == q && IsEarlier(e, f) && forall x :: x in at[p] ==> !(IsEarlier(e, x) && IsEarlier(x, f)))
            || (p.0 == q.0 && (forall x :: x in at[p] ==> !IsEarlier(e, x))
                && (forall x :: x in at[q] ==> !IsEarlier(x, f)) && PassesEmpty(arcs, at, p.0, p.1, q.1))
  {
    var i := PositionOf(at, p, e);
    var j := PositionOf(at, q, f);
    OrderedPlacesAreUnique(at);
    NextByAddress(at, p, e, i);
    if p == q { NextOfBoth(at, p, e, i, f, j); }
    FirstByAddress(at, q, f, j);
    SkipsIffEmpty(arcs, at, p.0, p.1, q.1);
    InBlockByPosition(at, p, e, i, q, f, j);
    AcrossByPosition(arcs, at, p, e, i, q, f, j);
  }

  lemma NextByAddress(at: map<Place, seq<Event>>, p: Place, e: Event, i: nat)
    requires ValidPlaces(at) && p in at && At(Ordered(at), p.0, p.1, i, e)
    ensures i == |Ordered(at)[p]| - 1 <==> forall x :: x in at[p] ==> !IsEarlier(e, x)
  {
    var sorted := SortEvents(at[p]);
    assert p == (p.0, p.1);
    if i < |sorted| - 1 {
      SortedByAddress(at[p], i, i + 1);
      assert sorted[i + 1] in at[p];
    } else {
      forall x | x in at[p] ensures !IsEarlier(e, x) {
        var k := PositionOf(at, p, x);
        SortedByAddress(at[p], i, k);
      }
    }
  }

  lemma FirstByAddress(at: map<Place, seq<Event>>, p: Place, e: Event, i: nat)
    requires ValidPlaces(at) && p in at && At(Ordered(at), p.0, p.1, i, e)
    ensures i == 0 <==> forall x :: x in at[p] ==> !IsEarlier(x, e)
  {
    var sorted := SortEvents(at[p]);
    assert p == (p.0, p.1);
    if i > 0 {
      SortedByAddress(at[p], 0, i);
      assert sorted[0] in at[p];
    } else {
      forall x | x in at[p] ensures !IsEarlier(x, e) {
        var k := PositionOf(at, p, x);
        SortedByAddress(at[p], k, i);
      }
    }
  }

  lemma NextOfBoth(at: map<Place, seq<Event>>, p: Place, e: Event, i: nat, f: Event, j: nat)
    requires ValidPlaces(at) && p in at && At(Ordered(at), p.0, p.1, i, e) && At(Ordered(at), p.0, p.1, j, f)
    ensures j == i + 1 <==> IsEarlier(e, f) && forall x :: x in at[p] ==> !(IsEarlier(e, x) && IsEarlier(x, f))
  {
    var sorted := SortEvents(at[p]);
    assert p == (p.0, p.1);
    SortedByAddress(at[p], i, j);
    if i + 1 < j {
      SortedByAddress(at[p], i, i + 1);
      SortedByAddress(at[p], i + 1, j);
      assert sorted[i + 1] in at[p];
    }
    if j == i + 1 {
      forall x | x in at[p] ensures !(IsEarlier(e, x) && IsEarlier(x, f)) {
        var k := PositionOf(at, p, x);
        SortedByAddress(at[p], i, k);
        SortedByAddress(at[p], k, j);
      }
    }
  }

  lemma InBlockByPosition(at: map<Place, seq<Event>>, p: Place, e: Event, i: nat, q: Place, f: Event, j: nat)
    requires ValidPlaces(at) && At(Ordered(at), p.0, p.1, i, e) && At(Ordered(at), q.0, q.1, j, f)
    ensures FollowsInBlock(Ordered(at), e, f) <==> p == q && j == i + 1
  {
    OrderedPlacesAreUnique(at);
  }

  lemma AcrossByPosition(arcs: Arcs, at: map<Place, seq<Event>>, p: Place, e: Event, i: nat, q: Place, f: Event,
                         j: nat)
    requires ValidPlaces(at) && At(Ordered(at), p.0, p.1, i, e) && At(Ordered(at), q.0, q.1, j, f)
    ensures FollowsBlock(arcs, Ordered(at), e, f)
       <==> p.0 == q.0 && i == |Ordered(at)[(p.0, p.1)]| - 1 && j == 0 && Skips(arcs, Ordered(at), p.0, p.1, q.1)
  {
    OrderedPlacesAreUnique(at);
    if p.0 == q.0 && i == |Ordered(at)[(p.0, p.1)]| - 1 && j == 0 && Skips(arcs, Ordered(at), p.0, p.1, q.1) {
      assert IsLastOf(Ordered(at), p.0, p.1, e) && At(Ordered(at), q.0, q.1, 0, f);
    }
  }
}

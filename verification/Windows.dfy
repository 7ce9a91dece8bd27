/** Cutting a trace into analysis windows: grouping the communication edges by the blocks of a graph
    over their endpoints, and keeping the boundaries that order the endpoints of each group. */
module Windows {
  import opened Events
  import opened Graphs
  import opened PreservedOrder
  import opened Boundaries
  import opened Blocks
  import opened Biconnected

  // ----- Reading the trace -----

  predicate InRange(e: TraceEvent, thread: nat, first: nat, last: nat) {
    e.kind.IsBoundary() && e.thread == thread && first <= e.sequence <= last
  }

  method BoundariesBetween(trace: seq<TraceEvent>, thread: nat, first: nat, last: nat)
    returns (boundaries: seq<TraceEvent>)
    requires ValidEvents(trace)
    ensures SortedThread(boundaries)
    ensures forall e :: e in boundaries <==> e in trace && InRange(e, thread, first, last)
    ensures forall e :: e in boundaries <==>
              && e in trace && e.thread == thread && first <= e.sequence <= last
              && e.kind in {ATOMIC_RMW, LFENCE, SFENCE, MFENCE, FUTEX_WAIT}
  {
    boundaries := [];
    for i := 0 to |trace|
      invariant SortedThread(boundaries)
      invariant forall e :: e in boundaries <==> e in trace[..i] && InRange(e, thread, first, last)
    {
      assert trace[..i + 1] == trace[..i] + [trace[i]];
      if InRange(trace[i], thread, first, last) {
        boundaries := InsertBySequence(boundaries, trace[i]);
      }
    }
    assert trace[..|trace|] == trace;
  }

  /** A boundary of the thread that lies between its first and last endpoint. */
  predicate Spanned(endpoints: seq<TraceEvent>, b: TraceEvent) {
    endpoints != [] && InRange(b, endpoints[0].thread, endpoints[0].sequence, endpoints[|endpoints| - 1].sequence)
  }

  ghost predicate IsSpan(trace: seq<TraceEvent>, endpoints: seq<TraceEvent>, boundaries: seq<TraceEvent>) {
    && SortedThread(boundaries)
    && forall b :: b in boundaries <==> b in trace && Spanned(endpoints, b)
  }

  lemma SpanIsRange(trace: seq<TraceEvent>, endpoints: seq<TraceEvent>, boundaries: seq<TraceEvent>)
    requires ValidEvents(trace) && SortedThread(endpoints) && IsSpan(trace, endpoints, boundaries)
    requires forall e :: e in endpoints ==> e in trace && e.IsMemory()
    ensures ThreadRange(endpoints, boundaries)
  {
    forall e, b | e in endpoints && b in boundaries ensures e.thread == b.thread
      && (e.sequence == b.sequence ==> e == b) {
      var i := IndexOf(endpoints, e);
      if i > 0 { assert endpoints[0].Precedes(endpoints[i]); }
    }
  }

  // ----- The events of one window -----

  ghost function OfThread(events: set<TraceEvent>, thread: nat): set<TraceEvent> {
    set e | e in events && e.thread == thread
  }

  lemma {:induction false} WalkStaysInThread(events: set<TraceEvent>, p: seq<TraceEvent>, n: nat)
    requires IsWalk(BoundaryOrder(events), p) && n < |p|
    ensures p[n].thread == p[0].thread
  {
    if n > 0 {
      WalkStaysInThread(events, p, n - 1);
      assert (p[n - 1], p[n]) in BoundaryOrder(events);
    }
  }

  /** Boundaries of other threads do not help. */
  lemma ThreadsAreSeparate(events: set<TraceEvent>, e: TraceEvent, f: TraceEvent)
    ensures Reaches(BoundaryOrder(events), e, f) <==> Reaches(BoundaryOrder(OfThread(events, e.thread)), e, f)
  {
    var all, own := BoundaryOrder(events), BoundaryOrder(OfThread(events, e.thread));
    if Reaches(all, e, f) {
      var p :| WalkFromTo(all, p, e, f);
      forall i | 0 <= i < |p| - 1 ensures (p[i], p[i + 1]) in own {
        WalkStaysInThread(events, p, i);
        WalkStaysInThread(events, p, i + 1);
        assert (p[i], p[i + 1]) in all;
      }
      assert WalkFromTo(own, p, e, f);
    }
    if Reaches(own, e, f) { ReachesMonotone(own, all, e, f); }
  }

  /** All events that a window over the given endpoints could hold. */
  ghost function Candidates(trace: seq<TraceEvent>, threads: map<nat, seq<TraceEvent>>): set<TraceEvent> {
    set e | e in trace && e.thread in threads && (e in threads[e.thread] || Spanned(threads[e.thread], e))
  }

  /** The window holds every endpoint and orders the endpoints as all candidate boundaries together do. */
  ghost predicate KeepsOrder(trace: seq<TraceEvent>, threads: map<nat, seq<TraceEvent>>, events: set<TraceEvent>) {
    && events <= Candidates(trace, threads)
    && (forall t, e :: t in threads && e in threads[t] ==> e in events)
    && (forall t, e, f :: t in threads && e in threads[t] && f in threads[t] ==>
          (Reaches(BoundaryOrder(events), e, f) <==> Reaches(BoundaryOrder(Candidates(trace, threads)), e, f)))
  }

  /** The part of the window that belongs to one thread is made of its endpoints and a sufficient selection. */
  ghost predicate ThreadIsSelected(trace: seq<TraceEvent>, endpoints: seq<TraceEvent>, thread: nat,
                                   events: set<TraceEvent>) {
    exists boundaries, kept :: Selects(trace, endpoints, thread, events, boundaries, kept)
  }

  ghost predicate Selects(trace: seq<TraceEvent>, endpoints: seq<TraceEvent>, thread: nat, events: set<TraceEvent>,
                          boundaries: seq<TraceEvent>, kept: seq<TraceEvent>) {
    && IsSpan(trace, endpoints, boundaries) && KeepsEnough(endpoints, boundaries, kept)
    && OfThread(events, thread) == Members(endpoints) + Members(kept)
    && forall b :: b in kept <==> IsNeeded(endpoints, boundaries, b)
  }

  /** The window holds the endpoints and, of each thread, exactly the boundaries needed between them. */
  ghost predicate HoldsNeeded(trace: seq<TraceEvent>, threads: map<nat, seq<TraceEvent>>, events: set<TraceEvent>) {
    forall e :: e in events <==> exists t :: t in threads && IsHeld(trace, threads[t], e)
  }

  ghost predicate IsHeld(trace: seq<TraceEvent>, endpoints: seq<TraceEvent>, e: TraceEvent) {
    e in endpoints || IsNeeded(endpoints, trace, e)
  }

  ghost predicate ThreadsOf(trace: seq<TraceEvent>, threads: map<nat, seq<TraceEvent>>) {
    forall t :: t in threads ==>
      && SortedThread(threads[t]) && threads[t] != []
      && forall e :: e in threads[t] ==> e in trace && e.thread == t && e.IsMemory()
  }

  lemma CandidatesOfThread(trace: seq<TraceEvent>, threads: map<nat, seq<TraceEvent>>, t: nat,
                           boundaries: seq<TraceEvent>)
    requires ThreadsOf(trace, threads) && t in threads && IsSpan(trace, threads[t], boundaries)
    ensures OfThread(Candidates(trace, threads), t) == Members(threads[t]) + Members(boundaries)
  {
    assert threads[t][0] in threads[t];
  }

  lemma SelectionKeepsOrder(trace: seq<TraceEvent>, threads: map<nat, seq<TraceEvent>>, events: set<TraceEvent>,
                            t: nat, e: TraceEvent, f: TraceEvent)
    requires ValidEvents(trace) && ThreadsOf(trace, threads) && t in threads && e in threads[t] && f in threads[t]
    requires ThreadIsSelected(trace, threads[t], t, events)
    ensures Reaches(BoundaryOrder(events), e, f) <==> Reaches(BoundaryOrder(Candidates(trace, threads)), e, f)
  {
    var boundaries, kept :| Selects(trace, threads[t], t, events, boundaries, kept);
    SpanIsRange(trace, threads[t], boundaries);
    CandidatesOfThread(trace, threads, t, boundaries);
    ThreadsAreSeparate(events, e, f);
    ThreadsAreSeparate(Candidates(trace, threads), e, f);
    KeptBoundariesSuffice(threads[t], boundaries, kept, e, f);
  }

  /** The span of the endpoints holds all that can be needed between them. */
  lemma NeededInSpan(trace: seq<TraceEvent>, endpoints: seq<TraceEvent>, boundaries: seq<TraceEvent>, b: TraceEvent)
    requires ValidEvents(trace) && SortedThread(endpoints) && IsSpan(trace, endpoints, boundaries)
    requires forall e :: e in endpoints ==> e in trace && e.IsMemory()
    ensures IsNeeded(endpoints, boundaries, b) <==> IsNeeded(endpoints, trace, b)
  {
    forall x | x in trace && IsInside(endpoints, x) ensures x in boundaries {
      InsideIsSpanned(endpoints, x);
    }
    assert forall x :: IsInside(endpoints, x) ==> (x in trace <==> x in boundaries);
  }

  lemma InsideIsSpanned(endpoints: seq<TraceEvent>, x: TraceEvent)
    requires SortedThread(endpoints) && IsInside(endpoints, x)
    ensures Spanned(endpoints, x)
  {
    var e :| e in endpoints && e.thread == x.thread && e.sequence < x.sequence;
    var f :| f in endpoints && f.thread == x.thread && x.sequence < f.sequence;
    var i := IndexOf(endpoints, e);
    var j := IndexOf(endpoints, f);
    if i > 0 { assert endpoints[0].Precedes(endpoints[i]); }
    if j < |endpoints| - 1 { assert endpoints[j].Precedes(endpoints[|endpoints| - 1]); }
  }

  lemma SelectionHoldsNeeded(trace: seq<TraceEvent>, threads: map<nat, seq<TraceEvent>>, events: set<TraceEvent>)
    requires ValidEvents(trace) && ThreadsOf(trace, threads) && events <= Candidates(trace, threads)
    requires forall t :: t in threads ==> ThreadIsSelected(trace, threads[t], t, events)
    ensures HoldsNeeded(trace, threads, events)
  {
    forall e, t | t in threads ensures IsHeld(trace, threads[t], e) <==> e in events && e.thread == t {
      SelectedIsHeld(trace, threads, events, t, e);
    }
  }

  lemma SelectedIsHeld(trace: seq<TraceEvent>, threads: map<nat, seq<TraceEvent>>, events: set<TraceEvent>, t: nat,
                       e: TraceEvent)
    requires ValidEvents(trace) && ThreadsOf(trace, threads) && t in threads
    requires ThreadIsSelected(trace, threads[t], t, events)
    ensures IsHeld(trace, threads[t], e) <==> e in events && e.thread == t
  {
    var boundaries, kept :| Selects(trace, threads[t], t, events, boundaries, kept);
    NeededInSpan(trace, threads[t], boundaries, e);
    assert e in OfThread(events, t) <==> e in Members(threads[t]) + Members(kept);
  }

  lemma OtherThreadsUnchanged(events: set<TraceEvent>, added: seq<TraceEvent>, t: nat, u: nat)
    requires t != u && forall e :: e in added ==> e.thread == t
    ensures OfThread(events + Members(added), u) == OfThread(events, u)
  {
  }

  ghost predicate NotYetSelected(threads: map<nat, seq<TraceEvent>>, left: set<nat>, events: set<TraceEvent>) {
    forall t :: t in left && t in threads ==> OfThread(events, t) == Members(threads[t])
  }

  ghost predicate AlreadySelected(trace: seq<TraceEvent>, threads: map<nat, seq<TraceEvent>>, left: set<nat>,
                                  events: set<TraceEvent>) {
    forall t :: t in threads && t !in left ==> ThreadIsSelected(trace, threads[t], t, events)
  }

  lemma SelectThread(trace: seq<TraceEvent>, threads: map<nat, seq<TraceEvent>>, left: set<nat>,
                     events: set<TraceEvent>, t: nat, boundaries: seq<TraceEvent>, kept: seq<TraceEvent>)
    requires t in left && t in threads && NotYetSelected(threads, left, events)
      && AlreadySelected(trace, threads, left, events)
    requires ThreadsOf(trace, threads) && IsSpan(trace, threads[t], boundaries)
      && KeepsEnough(threads[t], boundaries, kept)
    requires forall b :: b in kept <==> IsNeeded(threads[t], boundaries, b)
    ensures NotYetSelected(threads, left - {t}, events + Members(kept))
    ensures AlreadySelected(trace, threads, left - {t}, events + Members(kept))
  {
    var events' := events + Members(kept);
    assert threads[t][0] in threads[t];
    forall u | u in threads && u != t ensures OfThread(events', u) == OfThread(events, u) {
      OtherThreadsUnchanged(events, kept, t, u);
    }
    forall u | u in threads && u !in left - {t} ensures ThreadIsSelected(trace, threads[u], u, events') {
      if u == t {
        assert OfThread(events', t) == OfThread(events, t) + Members(kept);
        assert Selects(trace, threads[t], t, events', boundaries, kept);
      } else {
        var b, k :| Selects(trace, threads[u], u, events, b, k);
        assert Selects(trace, threads[u], u, events', b, k);
      }
    }
  }

  method AllEndpoints(threads: map<nat, seq<TraceEvent>>) returns (events: set<TraceEvent>)
    ensures forall e :: e in events <==> exists t :: t in threads && e in threads[t]
  {
    events := set t, e | t in threads && e in threads[t] :: e;
  }

  /** Endpoints first, then per thread the boundaries that their order needs. */
  method WindowEvents(trace: seq<TraceEvent>, threads: map<nat, seq<TraceEvent>>) returns (events: set<TraceEvent>)
    requires ValidEvents(trace) && ThreadsOf(trace, threads)
    ensures KeepsOrder(trace, threads, events) && HoldsNeeded(trace, threads, events)
  {
    events := AllEndpoints(threads);
    var left := threads.Keys;
    while left != {}
      invariant left <= threads.Keys
      invariant NotYetSelected(threads, left, events) && AlreadySelected(trace, threads, left, events)
      invariant events <= Candidates(trace, threads)
      invariant forall t, e :: t in threads && e in threads[t] ==> e in events
    {
      var t :| t in left;
      var endpoints := threads[t];
      assert endpoints[0] in endpoints;
      var boundaries := BoundariesBetween(trace, t, endpoints[0].sequence, endpoints[|endpoints| - 1].sequence);
      var kept := MinimalBoundaries(endpoints, boundaries);
      SpanIsRange(trace, endpoints, boundaries);
      SelectThread(trace, threads, left, events, t, boundaries, kept);
      left := left - {t};
      events := events + set e | e in kept;
    }
    SelectionHoldsNeeded(trace, threads, events);
    forall t, e, f | t in threads && e in threads[t] && f in threads[t]
      ensures Reaches(BoundaryOrder(events), e, f) <==> Reaches(BoundaryOrder(Candidates(trace, threads)), e, f) {
      SelectionKeepsOrder(trace, threads, events, t, e, f);
    }
  }

  // ----- The grouping graph -----

  type Joins = set<Edge>

  /** The graph joins exactly the given pairs, in both directions. */
  ghost predicate Represents(graph: Graph<TraceEvent>, joins: Joins) {
    && (forall a, b :: a in graph && b in graph[a] ==> (a, b) in joins || (b, a) in joins)
    && (forall a, b :: (a, b) in joins ==> a in graph && b in graph && b in graph[a] && a in graph[b])
  }

  method AddLink(graph: Graph<TraceEvent>, a: TraceEvent, b: TraceEvent, ghost joins: Joins)
    returns (graph': Graph<TraceEvent>)
    requires Represents(graph, joins)
    ensures Represents(graph', joins + {(a, b)})
  {
    graph' := graph[a := (if a in graph then graph[a] else {}) + {b}];
    graph' := graph'[b := (if b in graph' then graph'[b] else {}) + {a}];
  }

  ghost function NeighbourJoins(endpoints: seq<TraceEvent>, n: nat): Joins {
    set i {:trigger endpoints[i]} | 0 <= i < n && i + 1 < |endpoints| :: (endpoints[i], endpoints[i + 1])
  }

  function AcceptedBefore(endpoints: seq<TraceEvent>, b: TraceEvent): (r: seq<TraceEvent>)
    ensures forall e :: e in r <==> e in endpoints && e.sequence < b.sequence && Accepts(b.kind, e)
  {
    if endpoints == [] then [] else
      var e := endpoints[0];
      (if e.sequence < b.sequence && Accepts(b.kind, e) then [e] else []) + AcceptedBefore(endpoints[1..], b)
  }

  function AcceptedAfter(endpoints: seq<TraceEvent>, b: TraceEvent): (r: seq<TraceEvent>)
    ensures forall e :: e in r <==> e in endpoints && b.sequence < e.sequence && Accepts(b.kind, e)
  {
    if endpoints == [] then [] else
      var e := endpoints[0];
      (if b.sequence < e.sequence && Accepts(b.kind, e) then [e] else []) + AcceptedAfter(endpoints[1..], b)
  }

  /** A boundary is joined to the endpoints it accepts if there are some on both sides of it. */
  predicate StarJoin(endpoints: seq<TraceEvent>, b: TraceEvent, e: TraceEvent) {
    && AcceptedBefore(endpoints, b) != [] && AcceptedAfter(endpoints, b) != []
    && e in endpoints && e.sequence != b.sequence && Accepts(b.kind, e)
  }

  ghost function StarJoins(endpoints: seq<TraceEvent>, boundaries: set<TraceEvent>): Joins {
    set b, e | b in boundaries && e in endpoints && StarJoin(endpoints, b, e) :: (b, e)
  }

  method JoinNeighbours(graph: Graph<TraceEvent>, endpoints: seq<TraceEvent>, ghost joins: Joins)
    returns (graph': Graph<TraceEvent>)
    requires Represents(graph, joins)
    ensures Represents(graph', joins + NeighbourJoins(endpoints, |endpoints|))
  {
    graph' := graph;
    for i := 0 to |endpoints|
      invariant Represents(graph', joins + NeighbourJoins(endpoints, i))
    {
      if i + 1 < |endpoints| {
        graph' := AddLink(graph', endpoints[i], endpoints[i + 1], joins + NeighbourJoins(endpoints, i));
      }
      NeighbourStep(endpoints, i, joins);
    }
  }

  lemma NeighbourStep(endpoints: seq<TraceEvent>, i: nat, joins: Joins)
    requires i < |endpoints|
    ensures joins + NeighbourJoins(endpoints, i + 1)
         == joins + NeighbourJoins(endpoints, i) + if i + 1 < |endpoints| then {(endpoints[i], endpoints[i + 1])}
           else {}
  {
  }

  method JoinStar(graph: Graph<TraceEvent>, b: TraceEvent, leaves: seq<TraceEvent>, ghost joins: Joins)
    returns (graph': Graph<TraceEvent>)
    requires Represents(graph, joins)
    ensures Represents(graph', joins + set e | e in leaves :: (b, e))
  {
    graph' := graph;
    for i := 0 to |leaves|
      invariant Represents(graph', joins + set e | e in leaves[..i] :: (b, e))
    {
      ghost var before := joins + set e | e in leaves[..i] :: (b, e);
      graph' := AddLink(graph', b, leaves[i], before);
      assert leaves[..i + 1] == leaves[..i] + [leaves[i]];
      assert before + {(b, leaves[i])} == joins + set e | e in leaves[..i + 1] :: (b, e);
    }
    assert leaves[..|leaves|] == leaves;
  }

  lemma StarStep(endpoints: seq<TraceEvent>, boundaries: seq<TraceEvent>, i: nat, joins: Joins, leaves: seq<TraceEvent>)
    requires i < |boundaries|
    requires forall e :: e in leaves <==> e in endpoints && StarJoin(endpoints, boundaries[i], e)
    ensures joins + StarJoins(endpoints, Members(boundaries[..i + 1]))
         == joins + StarJoins(endpoints, Members(boundaries[..i])) + set e | e in leaves :: (boundaries[i], e)
  {
    assert boundaries[..i + 1] == boundaries[..i] + [boundaries[i]];
    assert Members(boundaries[..i + 1]) == Members(boundaries[..i]) + {boundaries[i]};
  }

  method JoinStars(graph: Graph<TraceEvent>, endpoints: seq<TraceEvent>, boundaries: seq<TraceEvent>,
                   ghost joins: Joins)
    returns (graph': Graph<TraceEvent>)
    requires Represents(graph, joins)
    ensures Represents(graph', joins + StarJoins(endpoints, Members(boundaries)))
  {
    graph' := graph;
    assert joins + StarJoins(endpoints, Members(boundaries[..0])) == joins;
    for i := 0 to |boundaries|
      invariant Represents(graph', joins + StarJoins(endpoints, Members(boundaries[..i])))
    {
      var before, after := AcceptedBefore(endpoints, boundaries[i]), AcceptedAfter(endpoints, boundaries[i]);
      var leaves := if before == [] || after == [] then [] else before + after;
      StarStep(endpoints, boundaries, i, joins, leaves);
      graph' := JoinStar(graph', boundaries[i], leaves, joins + StarJoins(endpoints, Members(boundaries[..i])));
    }
    assert boundaries[..|boundaries|] == boundaries;
  }

  ghost function SpanOf(trace: seq<TraceEvent>, endpoints: seq<TraceEvent>): set<TraceEvent> {
    set b | b in trace && Spanned(endpoints, b)
  }

  ghost function ThreadJoins(trace: seq<TraceEvent>, endpoints: seq<TraceEvent>): Joins {
    NeighbourJoins(endpoints, |endpoints|) + StarJoins(endpoints, SpanOf(trace, endpoints))
  }

  /** What one thread adds to the grouping graph: neighbours in program order, and boundary stars. */
  method JoinThread(graph: Graph<TraceEvent>, trace: seq<TraceEvent>, endpoints: seq<TraceEvent>, ghost joins: Joins)
    returns (graph': Graph<TraceEvent>)
    requires ValidEvents(trace) && endpoints != [] && Represents(graph, joins)
    ensures Represents(graph', joins + ThreadJoins(trace, endpoints))
  {
    graph' := JoinNeighbours(graph, endpoints, joins);
    var boundaries :=
      BoundariesBetween(trace, endpoints[0].thread, endpoints[0].sequence, endpoints[|endpoints| - 1].sequence);
    assert Members(boundaries) == SpanOf(trace, endpoints);
    ghost var before := joins + NeighbourJoins(endpoints, |endpoints|);
    graph' := JoinStars(graph', endpoints, boundaries, before);
    assert before + StarJoins(endpoints, Members(boundaries)) == joins + ThreadJoins(trace, endpoints);
  }

  /** Communication edges join memory events of different threads. */
  ghost predicate ValidLinks(trace: seq<TraceEvent>, links: seq<Edge>) {
    forall l :: l in links ==>
      l.0 in trace && l.1 in trace && l.0.IsMemory() && l.1.IsMemory() && l.0.thread != l.1.thread
  }

  method LinkEnds(links: seq<Edge>) returns (ends: seq<TraceEvent>)
    ensures forall e :: e in ends <==> exists l :: l in links && (e == l.0 || e == l.1)
    ensures forall i, j :: 0 <= i < j < |ends| ==> ends[i] != ends[j]
  {
    ends := [];
    for i := 0 to |links|
      invariant forall e :: e in ends <==> exists l :: l in links[..i] && (e == l.0 || e == l.1)
      invariant forall m, n :: 0 <= m < n < |ends| ==> ends[m] != ends[n]
    {
      assert links[..i + 1] == links[..i] + [links[i]];
      if links[i].0 !in ends { ends := ends + [links[i].0]; }
      if links[i].1 !in ends { ends := ends + [links[i].1]; }
    }
    assert links[..|links|] == links;
  }

  ghost predicate IsEnd(links: seq<Edge>, e: TraceEvent) {
    exists l :: l in links && (e == l.0 || e == l.1)
  }

  /** The endpoints of the links, sorted per thread. */
  ghost predicate EndpointThreads(trace: seq<TraceEvent>, links: seq<Edge>, threads: map<nat, seq<TraceEvent>>) {
    && ThreadsOf(trace, threads)
    && (forall e :: IsEnd(links, e) ==> e.thread in threads && e in threads[e.thread])
    && (forall t, e :: t in threads && e in threads[t] ==> IsEnd(links, e))
  }

  lemma ValidPart(trace: seq<TraceEvent>, part: seq<TraceEvent>)
    requires ValidEvents(trace) && forall e :: e in part ==> e in trace
    requires forall i, j :: 0 <= i < j < |part| ==> part[i] != part[j]
    ensures ValidEvents(part)
  {
  }

  method EndpointsByThread(trace: seq<TraceEvent>, links: seq<Edge>) returns (threads: map<nat, seq<TraceEvent>>)
    requires ValidEvents(trace) && ValidLinks(trace, links)
    ensures EndpointThreads(trace, links, threads)
  {
    var ends := LinkEnds(links);
    forall e ensures e in ends <==> IsEnd(links, e) {}
    ValidPart(trace, ends);
    var grouped := ByThread(ends);
    threads := map t | t in grouped && grouped[t] != [] :: grouped[t];
    forall t, e | t in threads && e in threads[t] ensures e in trace && e.thread == t && e.IsMemory()
      && IsEnd(links, e) {
      assert e in ends;
    }
  }

  // ----- The whole grouping graph -----

  ghost function LinkJoins(links: seq<Edge>): Joins { set l | l in links }

  ghost predicate IsThreadJoin(trace: seq<TraceEvent>, threads: map<nat, seq<TraceEvent>>, done: set<nat>, j: Edge) {
    exists t :: t in done && t in threads && j in ThreadJoins(trace, threads[t])
  }

  /** Exactly these pairs are joined: the links, and what the threads in done add. */
  ghost predicate JoinsAre(trace: seq<TraceEvent>, links: seq<Edge>, threads: map<nat, seq<TraceEvent>>,
                           done: set<nat>, joins: Joins) {
    forall j :: j in joins <==> j in links || IsThreadJoin(trace, threads, done, j)
  }

  lemma JoinsGrow(trace: seq<TraceEvent>, links: seq<Edge>, threads: map<nat, seq<TraceEvent>>, done: set<nat>,
                  joins: Joins, t: nat)
    requires JoinsAre(trace, links, threads, done, joins) && t in threads
    ensures JoinsAre(trace, links, threads, done + {t}, joins + ThreadJoins(trace, threads[t]))
  {
    forall j ensures IsThreadJoin(trace, threads, done + {t}, j)
                <==> IsThreadJoin(trace, threads, done, j) || j in ThreadJoins(trace, threads[t]) {
      if IsThreadJoin(trace, threads, done, j) {
        var u :| u in done && u in threads && j in ThreadJoins(trace, threads[u]);
        assert u in done + {t};
      }
      if j in ThreadJoins(trace, threads[t]) { assert t in done + {t}; }
    }
  }

  lemma ThreadJoinsDiffer(trace: seq<TraceEvent>, endpoints: seq<TraceEvent>, j: Edge)
    requires SortedThread(endpoints) && j in ThreadJoins(trace, endpoints)
    ensures j.0 != j.1
  {
    if j in NeighbourJoins(endpoints, |endpoints|) {
      var i :| 0 <= i && i + 1 < |endpoints| && j == (endpoints[i], endpoints[i + 1]);
      assert endpoints[i].Precedes(endpoints[i + 1]);
    }
  }

  lemma GraphIsUndirected(trace: seq<TraceEvent>, links: seq<Edge>, threads: map<nat, seq<TraceEvent>>, joins: Joins,
                          graph: Graph<TraceEvent>)
    requires ValidLinks(trace, links) && ThreadsOf(trace, threads)
    requires JoinsAre(trace, links, threads, threads.Keys, joins) && Represents(graph, joins)
    ensures Undirected(graph)
  {
    forall j | j in joins ensures j.0 != j.1 {
      if j !in links {
        var t :| t in threads && j in ThreadJoins(trace, threads[t]);
        ThreadJoinsDiffer(trace, threads[t], j);
      }
    }
    forall u, v | u in graph && v in graph[u] ensures v in graph && u in graph[v] && u != v {
      assert (u, v) in joins || (v, u) in joins;
    }
  }

  method GroupingGraph(trace: seq<TraceEvent>, links: seq<Edge>)
    returns (graph: Graph<TraceEvent>, ghost joins: Joins, ghost threads: map<nat, seq<TraceEvent>>)
    requires ValidEvents(trace) && ValidLinks(trace, links)
    ensures EndpointThreads(trace, links, threads)
    ensures JoinsAre(trace, links, threads, threads.Keys, joins) && Represents(graph, joins) && Undirected(graph)
  {
    graph, joins := map[], {};
    for i := 0 to |links|
      invariant Represents(graph, joins) && joins == LinkJoins(links[..i])
    {
      assert links[..i + 1] == links[..i] + [links[i]];
      graph := AddLink(graph, links[i].0, links[i].1, joins);
      joins := joins + {(links[i].0, links[i].1)};
    }
    assert links[..|links|] == links;
    var byThread := EndpointsByThread(trace, links);
    threads := byThread;
    var left := byThread.Keys;
    while left != {}
      invariant left <= byThread.Keys
      invariant Represents(graph, joins) && JoinsAre(trace, links, threads, threads.Keys - left, joins)
    {
      var t :| t in left;
      JoinsGrow(trace, links, threads, threads.Keys - left, joins, t);
      assert threads.Keys - left + {t} == threads.Keys - (left - {t});
      graph := JoinThread(graph, trace, byThread[t], joins);
      joins := joins + ThreadJoins(trace, byThread[t]);
      left := left - {t};
    }
    assert threads.Keys - left == threads.Keys;
    GraphIsUndirected(trace, links, threads, joins, graph);
  }

  // ----- Grouping the links -----

  function LinksInside(links: seq<Edge>, component: set<TraceEvent>): (inside: seq<Edge>)
    ensures forall l :: l in inside <==> l in links && l.0 in component && l.1 in component
  {
    if links == [] then [] else
      (if links[0].0 in component && links[0].1 in component then [links[0]]
        else []) + LinksInside(links[1..], component)
  }

  /** The groups are the nonempty link sets of the components, in order; from tells which component. */
  ghost predicate GroupsOf(links: seq<Edge>, components: seq<set<TraceEvent>>, n: nat, groups: seq<seq<Edge>>,
                           from: seq<nat>) {
    && |from| == |groups|
    && (forall k :: 0 <= k < |groups| ==>
          from[k] < n <= |components| && groups[k] != [] && groups[k] == LinksInside(links, components[from[k]]))
    && (forall i, k :: 0 <= i < k < |groups| ==> from[i] < from[k])
    && (forall c :: 0 <= c < n <= |components| && LinksInside(links, components[c]) != [] ==> c in from)
  }

  lemma AddGroup(links: seq<Edge>, components: seq<set<TraceEvent>>, c: nat, groups: seq<seq<Edge>>, from: seq<nat>)
    requires GroupsOf(links, components, c, groups, from) && c < |components| && LinksInside(links, components[c]) != []
    ensures GroupsOf(links, components, c + 1, groups + [LinksInside(links, components[c])], from + [c])
  {
  }

  lemma SkipComponent(links: seq<Edge>, components: seq<set<TraceEvent>>, c: nat, groups: seq<seq<Edge>>,
                      from: seq<nat>)
    requires GroupsOf(links, components, c, groups, from) && c < |components| && LinksInside(links, components[c]) == []
    ensures GroupsOf(links, components, c + 1, groups, from)
  {
  }

  method GroupLinks(links: seq<Edge>, components: seq<set<TraceEvent>>) returns (groups: seq<seq<Edge>>, from: seq<nat>)
    ensures GroupsOf(links, components, |components|, groups, from)
  {
    groups, from := [], [];
    for c := 0 to |components|
      invariant GroupsOf(links, components, c, groups, from)
    {
      var inside := LinksInside(links, components[c]);
      if inside != [] {
        AddGroup(links, components, c, groups, from);
        groups, from := groups + [inside], from + [c];
      } else {
        SkipComponent(links, components, c, groups, from);
      }
    }
  }

  ghost predicate InGroup(groups: seq<seq<Edge>>, g: int, l: Edge) {
    0 <= g < |groups| && l in groups[g]
  }

  ghost predicate InOneGroup(groups: seq<seq<Edge>>, l: Edge) {
    exists g :: InGroup(groups, g, l) && forall h :: InGroup(groups, h, l) ==> h == g
  }

  lemma GroupOfComponent(links: seq<Edge>, components: seq<set<TraceEvent>>, groups: seq<seq<Edge>>, from: seq<nat>,
                         c: int, l: Edge) returns (g: int)
    requires GroupsOf(links, components, |components|, groups, from)
    requires l in links && Together(components, c, l.0, l.1)
    ensures InGroup(groups, g, l) && from[g] == c
  {
    assert l in LinksInside(links, components[c]);
    g :| 0 <= g < |from| && from[g] == c;
  }

  /** Every link is in exactly one group. */
  lemma LinkHasOneGroup(graph: Graph<TraceEvent>, links: seq<Edge>, components: seq<set<TraceEvent>>,
                        groups: seq<seq<Edge>>, from: seq<nat>, l: Edge)
    requires Undirected(graph) && AreBlocks(graph, components)
      && GroupsOf(links, components, |components|, groups, from)
    requires l in links && l.0 in graph && l.1 in graph[l.0]
    ensures InOneGroup(groups, l)
  {
    var c := EdgeHasOneBlock(graph, components, l.0, l.1);
    var g := GroupOfComponent(links, components, groups, from, c, l);
    forall h | InGroup(groups, h, l) ensures h == g {
      assert Together(components, from[h], l.0, l.1);
    }
  }

  lemma OneGroupEach(links: seq<Edge>, components: seq<set<TraceEvent>>, groups: seq<seq<Edge>>, from: seq<nat>,
                     g: int, h: int)
    requires GroupsOf(links, components, |components|, groups, from)
    requires 0 <= g < |groups| && 0 <= h < |groups| && from[g] == from[h]
    ensures g == h
  {
  }

  /** Links on a common cycle of the grouping graph are in the same group. */
  ghost predicate CyclesStayTogether(graph: Graph<TraceEvent>, links: seq<Edge>, groups: seq<seq<Edge>>) {
    forall c, l, m :: OnLoop(graph, links, c, l) && OnLoop(graph, links, c, m) ==>
      exists g :: InGroup(groups, g, l) && InGroup(groups, g, m)
  }

  ghost predicate OnLoop(graph: Graph<TraceEvent>, links: seq<Edge>, c: seq<TraceEvent>, l: Edge) {
    IsLoop(graph, c) && l in links && l.0 in c && l.1 in c
  }

  lemma LoopLinksMeet(graph: Graph<TraceEvent>, links: seq<Edge>, components: seq<set<TraceEvent>>,
                      groups: seq<seq<Edge>>, from: seq<nat>)
    requires AreBlocks(graph, components) && GroupsOf(links, components, |components|, groups, from)
    ensures CyclesStayTogether(graph, links, groups)
  {
    forall c, l, m | OnLoop(graph, links, c, l) && OnLoop(graph, links, c, m)
      ensures exists g :: InGroup(groups, g, l) && InGroup(groups, g, m) {
      var i :| AllTogether(components, i, c);
      var g := GroupOfComponent(links, components, groups, from, i, l);
      var h := GroupOfComponent(links, components, groups, from, i, m);
      OneGroupEach(links, components, groups, from, g, h);
    }
  }

  // ----- Windows -----

  predicate EarlierPlace(a: TraceEvent, b: TraceEvent) {
    a.thread < b.thread || (a.thread == b.thread && a.sequence < b.sequence)
  }

  ghost predicate ArePlaced(events: seq<TraceEvent>) {
    forall i, j :: 0 <= i < j < |events| ==> EarlierPlace(events[i], events[j])
  }

  /** Sorted by thread, and by sequence number within a thread. */
  ghost predicate SortedWindow(events: seq<TraceEvent>) {
    forall i, j :: 0 <= i < j < |events| ==>
      || events[i].thread < events[j].thread
      || (events[i].thread == events[j].thread && events[i].sequence < events[j].sequence)
  }

  lemma PlacedIsSorted(events: seq<TraceEvent>)
    requires ArePlaced(events)
    ensures SortedWindow(events)
  {
    forall i, j | 0 <= i < j < |events| ensures EarlierPlace(events[i], events[j]) {}
  }

  function InsertByPlace(events: seq<TraceEvent>, e: TraceEvent): (r: seq<TraceEvent>)
    requires ArePlaced(events)
    requires forall x :: x in events ==> x.thread != e.thread || x.sequence != e.sequence
    ensures ArePlaced(r)
    ensures forall x :: x in r <==> x == e || x in events
  {
    if events == [] || EarlierPlace(e, events[0]) then
      [e] + events
    else
      var rest := InsertByPlace(events[1..], e);
      assert EarlierPlace(events[0], e) by { assert events[0] in events; }
      assert forall x :: x in events <==> x == events[0] || x in events[1..];
      assert forall x :: x in rest ==> EarlierPlace(events[0], x);
      [events[0]] + rest
  }

  method SortedEvents(trace: seq<TraceEvent>, events: set<TraceEvent>) returns (listing: seq<TraceEvent>)
    requires ValidEvents(trace) && forall e :: e in events ==> e in trace
    ensures SortedWindow(listing) && Members(listing) == events
  {
    listing := [];
    var left := events;
    while left != {}
      invariant left <= events && ArePlaced(listing) && Members(listing) == events - left
    {
      var e :| e in left;
      forall x | x in listing ensures x.thread != e.thread || x.sequence != e.sequence {
        assert x in Members(listing);
      }
      ghost var before := listing;
      listing := InsertByPlace(listing, e);
      assert Members(listing) == Members(before) + {e};
      left := left - {e};
    }
    PlacedIsSorted(listing);
  }

  datatype Window = Window(index: nat, events: seq<TraceEvent>, links: seq<Edge>)

  datatype Oversize = Oversize(index: nat, count: nat)

  ghost predicate AreChosen(trace: seq<TraceEvent>, links: seq<Edge>, threads: map<nat, seq<TraceEvent>>,
                            events: set<TraceEvent>) {
    EndpointThreads(trace, links, threads) && KeepsOrder(trace, threads, events) && HoldsNeeded(trace, threads, events)
  }

  /** The events chosen for a group of links. */
  ghost predicate EventsFor(trace: seq<TraceEvent>, links: seq<Edge>, events: seq<TraceEvent>) {
    SortedWindow(events) && exists threads :: AreChosen(trace, links, threads, Members(events))
  }

  method EventsOfGroup(trace: seq<TraceEvent>, links: seq<Edge>) returns (events: seq<TraceEvent>)
    requires ValidEvents(trace) && ValidLinks(trace, links)
    ensures EventsFor(trace, links, events)
  {
    var threads := EndpointsByThread(trace, links);
    var selected := WindowEvents(trace, threads);
    assert AreChosen(trace, links, threads, selected);
    events := SortedEvents(trace, selected);
  }

  ghost predicate IsWindow(trace: seq<TraceEvent>, groups: seq<seq<Edge>>, maxEvents: nat, w: Window) {
    && w.index < |groups| && w.links == groups[w.index]
    && EventsFor(trace, w.links, w.events) && |w.events| <= maxEvents
  }

  ghost predicate IsOversize(trace: seq<TraceEvent>, groups: seq<seq<Edge>>, maxEvents: nat, u: Oversize) {
    && u.index < |groups| && u.count > maxEvents
    && exists events :: EventsFor(trace, groups[u.index], events) && |events| == u.count
  }

  ghost predicate HasWindow(windows: seq<Window>, g: int) {
    exists w :: w in windows && w.index == g
  }

  ghost predicate HasOversize(unknowns: seq<Oversize>, g: int) {
    exists u :: u in unknowns && u.index == g
  }

  /** The first n groups are each reported once: as a window or as an unknown. */
  ghost predicate ReportedOnce(n: nat, windows: seq<Window>, unknowns: seq<Oversize>) {
    && (forall i, j :: 0 <= i < j < |windows| ==> windows[i].index < windows[j].index)
    && (forall i, j :: 0 <= i < j < |unknowns| ==> unknowns[i].index < unknowns[j].index)
    && (forall w :: w in windows ==> w.index < n) && (forall u :: u in unknowns ==> u.index < n)
    && (forall g :: 0 <= g < n ==> (HasWindow(windows, g) <==> !HasOversize(unknowns, g)))
  }

  lemma ReportWindow(n: nat, windows: seq<Window>, unknowns: seq<Oversize>, w: Window)
    requires ReportedOnce(n, windows, unknowns) && w.index == n
    ensures ReportedOnce(n + 1, windows + [w], unknowns)
  {
    forall g | 0 <= g <= n ensures HasWindow(windows + [w], g) <==> !HasOversize(unknowns, g) {
      if g < n {
        assert HasWindow(windows + [w], g) <==> HasWindow(windows, g);
      } else {
        assert w in windows + [w];
      }
    }
  }

  lemma ReportOversize(n: nat, windows: seq<Window>, unknowns: seq<Oversize>, u: Oversize)
    requires ReportedOnce(n, windows, unknowns) && u.index == n
    ensures ReportedOnce(n + 1, windows, unknowns + [u])
  {
    forall g | 0 <= g <= n ensures HasWindow(windows, g) <==> !HasOversize(unknowns + [u], g) {
      if g < n {
        assert HasOversize(unknowns + [u], g) <==> HasOversize(unknowns, g);
      } else {
        assert u in unknowns + [u];
      }
    }
  }

  ghost predicate GroupsFrom(graph: Graph<TraceEvent>, links: seq<Edge>, groups: seq<seq<Edge>>,
                             components: seq<set<TraceEvent>>, from: seq<nat>) {
    AreBlocks(graph, components) && GroupsOf(links, components, |components|, groups, from)
  }

  /** The groups are the nonempty link sets of the biconnected components. */
  ghost predicate GroupsAreBlocks(graph: Graph<TraceEvent>, links: seq<Edge>, groups: seq<seq<Edge>>) {
    exists components, from :: GroupsFrom(graph, links, groups, components, from)
  }

  /** Groups the links and reports each group once. The groups and the graph are returned for the contract's sake. */
  method BuildWindows(trace: seq<TraceEvent>, links: seq<Edge>, maxEvents: nat)
    returns (windows: seq<Window>, unknowns: seq<Oversize>, groups: seq<seq<Edge>>, graph: Graph<TraceEvent>)
    requires ValidEvents(trace) && ValidLinks(trace, links)
    ensures forall l :: l in links ==> InOneGroup(groups, l)
    ensures forall g, l :: InGroup(groups, g, l) ==> l in links
    ensures CyclesStayTogether(graph, links, groups) && GroupsAreBlocks(graph, links, groups)
    ensures exists joins, threads ::
              && EndpointThreads(trace, links, threads)
              && JoinsAre(trace, links, threads, threads.Keys, joins) && Represents(graph, joins)
    ensures ReportedOnce(|groups|, windows, unknowns)
    ensures forall w :: w in windows ==> IsWindow(trace, groups, maxEvents, w)
    ensures forall u :: u in unknowns ==> IsOversize(trace, groups, maxEvents, u)
  {
    ghost var joins, threads;
    graph, joins, threads := GroupingGraph(trace, links);
    var components := BiconnectedComponents(graph);
    var from;
    groups, from := GroupLinks(links, components);
    assert GroupsFrom(graph, links, groups, components, from);
    forall l | l in links ensures InOneGroup(groups, l) {
      assert (l.0, l.1) in joins;
      LinkHasOneGroup(graph, links, components, groups, from, l);
    }
    LoopLinksMeet(graph, links, components, groups, from);
    windows, unknowns := [], [];
    for index := 0 to |groups|
      invariant ReportedOnce(index, windows, unknowns)
      invariant forall w :: w in windows ==> IsWindow(trace, groups, maxEvents, w)
      invariant forall u :: u in unknowns ==> IsOversize(trace, groups, maxEvents, u)
    {
      var events := EventsOfGroup(trace, groups[index]);
      if |events| > maxEvents {
        ReportOversize(index, windows, unknowns, Oversize(index, |events|));
        unknowns := unknowns + [Oversize(index, |events|)];
        continue;
      }
      ReportWindow(index, windows, unknowns, Window(index, events, groups[index]));
      windows := windows + [Window(index, events, groups[index])];
    }
  }
}

/** What the fences of a trace keep in order, said by the kinds of events alone, and that windows lose nothing of it. */
module FenceOrder {
  import opened Events
  import opened Graphs
  import opened Kinds
  import opened PreservedOrder
  import opened Boundaries
  import opened Blocks
  import opened Windows

  /** An event of kind k keeps an access of kind a before it in front of an access of kind b after it. */
  predicate Keeps(k: EventKind, a: EventKind, b: EventKind) {
    IsFull(k) || (k == LFENCE && Loads(a) && Loads(b)) || (k == SFENCE && Stores(a) && Stores(b))
  }

  /** b is one of the two, or lies between them in their thread. */
  predicate LiesWithin(e: TraceEvent, b: TraceEvent, f: TraceEvent) {
    b == e || b == f || (b.thread == e.thread && e.sequence < b.sequence < f.sequence)
  }

  /** Something keeps access e in front of access f of the same thread. */
  ghost predicate IsFenced(events: set<TraceEvent>, e: TraceEvent, f: TraceEvent) {
    && e.thread == f.thread && e.sequence < f.sequence
    && exists b :: b in events && LiesWithin(e, b, f) && Keeps(b.kind, e.kind, f.kind)
  }

  ghost predicate HasFull(events: set<TraceEvent>, e: TraceEvent, v: TraceEvent) {
    exists b :: b in events && LiesWithin(e, b, v) && IsFull(b.kind)
  }

  ghost predicate HasHalf(events: set<TraceEvent>, k: EventKind, e: TraceEvent, v: TraceEvent) {
    exists b :: b in events && LiesWithin(e, b, v) && b.kind == k
  }

  /** What a walk along boundaries has met on its way from the access e. */
  ghost predicate IsCarried(events: set<TraceEvent>, e: TraceEvent, v: TraceEvent) {
    && e.thread == v.thread && e.sequence < v.sequence
    && (|| HasFull(events, e, v)
        || (Loads(e.kind) && HasHalf(events, LFENCE, e, v) && (v.kind == LFENCE || Loads(v.kind)))
        || (Stores(e.kind) && HasHalf(events, SFENCE, e, v) && (v.kind == SFENCE || Stores(v.kind))))
  }

  lemma FirstStep(events: set<TraceEvent>, e: TraceEvent, v: TraceEvent)
    requires e in events && v in events && BoundaryPair(e, v) && (Loads(e.kind) || Stores(e.kind))
    ensures IsCarried(events, e, v)
  {
    assert LiesWithin(e, e, v) && LiesWithin(e, v, v);
  }

  lemma HalfLiesFurther(events: set<TraceEvent>, k: EventKind, e: TraceEvent, v: TraceEvent, w: TraceEvent)
    requires e.thread == v.thread == w.thread && e.sequence < v.sequence < w.sequence
    ensures HasHalf(events, k, e, v) ==> HasHalf(events, k, e, w)
    ensures HasFull(events, e, v) ==> HasFull(events, e, w)
  {
    forall b | b in events && LiesWithin(e, b, v) ensures LiesWithin(e, b, w) {}
  }

  lemma NextStep(events: set<TraceEvent>, e: TraceEvent, v: TraceEvent, w: TraceEvent)
    requires v in events && w in events && IsCarried(events, e, v) && BoundaryPair(v, w)
    ensures IsCarried(events, e, w)
  {
    assert LiesWithin(e, v, v);
    HalfLiesFurther(events, LFENCE, e, v, w);
    HalfLiesFurther(events, SFENCE, e, v, w);
    assert LiesWithin(e, w, w);
  }

  lemma {:induction false} WalkIsCarried(events: set<TraceEvent>, p: seq<TraceEvent>, n: nat)
    requires IsWalk(BoundaryOrder(events), p) && 0 < n < |p| && (Loads(p[0].kind) || Stores(p[0].kind))
    ensures IsCarried(events, p[0], p[n])
  {
    assert (p[n - 1], p[n]) in BoundaryOrder(events);
    if n == 1 {
      FirstStep(events, p[0], p[1]);
    } else {
      WalkIsCarried(events, p, n - 1);
      NextStep(events, p[0], p[n - 1], p[n]);
    }
  }

  /** Two accesses are ordered by boundaries exactly if something between them keeps them in order. */
  lemma OrderedIffFenced(events: set<TraceEvent>, e: TraceEvent, f: TraceEvent)
    requires e in events && f in events && (Loads(e.kind) || Stores(e.kind)) && (Loads(f.kind) || Stores(f.kind))
    ensures Reaches(BoundaryOrder(events), e, f) <==> IsFenced(events, e, f)
  {
    var order := BoundaryOrder(events);
    if Reaches(order, e, f) {
      var p :| WalkFromTo(order, p, e, f);
      WalkIsCarried(events, p, |p| - 1);
    }
    if IsFenced(events, e, f) {
      var b :| b in events && LiesWithin(e, b, f) && Keeps(b.kind, e.kind, f.kind);
      if b == e || b == f {
        EdgeReaches(order, e, f);
      } else {
        ThroughOne(events, e, b, f);
      }
    }
  }

  // ----- Windows -----

  ghost function AllOf(trace: seq<TraceEvent>): set<TraceEvent> {
    set e | e in trace
  }

  /** An endpoint of the links: an access that communicates. */
  ghost predicate Communicates(links: seq<Edge>, e: TraceEvent) {
    exists l :: l in links && (e == l.0 || e == l.1)
  }

  lemma FencedByCandidates(trace: seq<TraceEvent>, threads: map<nat, seq<TraceEvent>>, e: TraceEvent, f: TraceEvent)
    requires ValidEvents(trace) && ThreadsOf(trace, threads) && e.thread in threads
    requires e in threads[e.thread] && f in threads[e.thread]
    ensures IsFenced(Candidates(trace, threads), e, f) <==> IsFenced(AllOf(trace), e, f)
  {
    var endpoints := threads[e.thread];
    if IsFenced(AllOf(trace), e, f) {
      var b :| b in AllOf(trace) && LiesWithin(e, b, f) && Keeps(b.kind, e.kind, f.kind);
      var i := IndexOf(endpoints, e);
      var j := IndexOf(endpoints, f);
      assert endpoints[0] in endpoints;
      assert i > 0 ==> endpoints[0].Precedes(endpoints[i]);
      assert j < |endpoints| - 1 ==> endpoints[j].Precedes(endpoints[|endpoints| - 1]);
      assert b in Candidates(trace, threads);
    }
    if IsFenced(Candidates(trace, threads), e, f) {
      var b :| b in Candidates(trace, threads) && LiesWithin(e, b, f) && Keeps(b.kind, e.kind, f.kind);
      assert b in AllOf(trace);
    }
  }

  /** In a window the boundaries order two endpoints exactly if the whole trace keeps them in order. */
  lemma WindowKeepsFences(trace: seq<TraceEvent>, links: seq<Edge>, events: seq<TraceEvent>, e: TraceEvent,
                          f: TraceEvent)
    requires ValidEvents(trace) && EventsFor(trace, links, events) && Communicates(links, e) && Communicates(links, f)
    ensures e in events && f in events
    ensures Reaches(BoundaryOrder(Members(events)), e, f) <==> IsFenced(AllOf(trace), e, f)
    ensures Reaches(BoundaryOrder(Members(events)), e, f) <==> Reaches(BoundaryOrder(AllOf(trace)), e, f)
  {
    var threads :| AreChosen(trace, links, threads, Members(events));
    assert IsEnd(links, e) && IsEnd(links, f);
    assert e in Members(events) && f in Members(events);
    OrderedIffFenced(Members(events), e, f);
    OrderedIffFenced(AllOf(trace), e, f);
    if e.thread == f.thread {
      OrderedIffFenced(Candidates(trace, threads), e, f);
      FencedByCandidates(trace, threads, e, f);
    }
  }

  /** A fence or atomic that does not communicate, with accesses of its thread that do before and after it. */
  ghost predicate IsAmid(links: seq<Edge>, b: TraceEvent) {
    && !Communicates(links, b) && (IsFull(b.kind) || b.kind == LFENCE || b.kind == SFENCE)
    && (exists e :: Communicates(links, e) && e.thread == b.thread && e.sequence < b.sequence)
    && (exists e :: Communicates(links, e) && e.thread == b.thread && b.sequence < e.sequence)
  }

  /** No access that communicates lies between the two events of a thread. */
  ghost predicate AreClose(links: seq<Edge>, x: TraceEvent, y: TraceEvent) {
    && x.thread == y.thread
    && forall e :: Communicates(links, e) && e.thread == x.thread ==>
      (e.sequence < x.sequence <==> e.sequence < y.sequence)
  }

  /** The first full one of its gap, or, in a gap without, the first of its kind. */
  ghost predicate IsWorthKeeping(trace: seq<TraceEvent>, links: seq<Edge>, b: TraceEvent) {
    && b in trace && IsAmid(links, b)
    && forall x :: x in trace && IsAmid(links, x) && AreClose(links, x, b) ==>
      && (IsFull(x.kind) ==> IsFull(b.kind) && b.sequence <= x.sequence)
      && (x.kind == b.kind ==> b.sequence <= x.sequence)
  }

  lemma EndpointsCommunicate(trace: seq<TraceEvent>, links: seq<Edge>, threads: map<nat, seq<TraceEvent>>, t: nat)
    requires EndpointThreads(trace, links, threads) && t in threads
    ensures forall e :: e in threads[t] <==> Communicates(links, e) && e.thread == t
  {
    forall e ensures e in threads[t] <==> Communicates(links, e) && e.thread == t {
      assert IsEnd(links, e) <==> Communicates(links, e);
    }
  }

  lemma InsideIffAmid(links: seq<Edge>, endpoints: seq<TraceEvent>, b: TraceEvent)
    requires forall e :: e in endpoints <==> Communicates(links, e) && e.thread == b.thread
    ensures IsInside(endpoints, b) <==> IsAmid(links, b)
  {
  }

  lemma NeededIffWorthKeeping(trace: seq<TraceEvent>, links: seq<Edge>, endpoints: seq<TraceEvent>, b: TraceEvent)
    requires forall e :: e in endpoints <==> Communicates(links, e) && e.thread == b.thread
    ensures IsNeeded(endpoints, trace, b) <==> IsWorthKeeping(trace, links, b)
  {
    InsideIffAmid(links, endpoints, b);
    forall x
      ensures IsInside(endpoints, x) && InSameGap(endpoints, x, b) <==> IsAmid(links, x) && AreClose(links, x, b) {
      if x.thread == b.thread { InsideIffAmid(links, endpoints, x); }
    }
  }

  lemma HeldIffWorthKeeping(trace: seq<TraceEvent>, links: seq<Edge>, threads: map<nat, seq<TraceEvent>>, t: nat,
                            b: TraceEvent)
    requires EndpointThreads(trace, links, threads) && t in threads
    ensures IsHeld(trace, threads[t], b)
       <==> b.thread == t && (Communicates(links, b) || IsWorthKeeping(trace, links, b))
  {
    EndpointsCommunicate(trace, links, threads, t);
    if b.thread == t { NeededIffWorthKeeping(trace, links, threads[t], b); }
  }

  lemma ThreadCommunicates(trace: seq<TraceEvent>, links: seq<Edge>, threads: map<nat, seq<TraceEvent>>, b: TraceEvent)
    requires EndpointThreads(trace, links, threads) && (Communicates(links, b) || IsWorthKeeping(trace, links, b))
    ensures b.thread in threads
  {
    if Communicates(links, b) {
      assert IsEnd(links, b);
    } else {
      assert IsAmid(links, b);
      var e :| Communicates(links, e) && e.thread == b.thread && e.sequence < b.sequence;
      assert IsEnd(links, e);
    }
  }

  /** A window holds the accesses that communicate and exactly the fences and atomics worth keeping between them. */
  lemma WindowHoldsTheNeeded(trace: seq<TraceEvent>, links: seq<Edge>, events: seq<TraceEvent>, b: TraceEvent)
    requires EventsFor(trace, links, events)
    ensures b in events <==> Communicates(links, b) || IsWorthKeeping(trace, links, b)
  {
    var threads :| AreChosen(trace, links, threads, Members(events));
    assert b in events <==> b in Members(events);
    assert HoldsNeeded(trace, threads, Members(events));
    if b in events {
      var t :| t in threads && IsHeld(trace, threads[t], b);
      HeldIffWorthKeeping(trace, links, threads, t, b);
    }
    if Communicates(links, b) || IsWorthKeeping(trace, links, b) {
      ThreadCommunicates(trace, links, threads, b);
      HeldIffWorthKeeping(trace, links, threads, b.thread, b);
    }
  }

  // ----- The grouping graph -----

  /** The next endpoint of the thread. */
  ghost predicate AreNeighbours(links: seq<Edge>, a: TraceEvent, b: TraceEvent) {
    && Communicates(links, a) && Communicates(links, b) && a.thread == b.thread && a.sequence < b.sequence
    && forall c :: Communicates(links, c) && c.thread == a.thread ==> !(a.sequence < c.sequence < b.sequence)
  }

  ghost predicate HasAdmitted(links: seq<Edge>, b: TraceEvent, after: bool) {
    exists c ::
      && Communicates(links, c) && c.thread == b.thread && Admits(b.kind, c.kind)
      && if after then b.sequence < c.sequence else c.sequence < b.sequence
  }

  /** b is a boundary with endpoints to order on both sides, and e another endpoint that it orders. */
  ghost predicate IsStar(trace: seq<TraceEvent>, links: seq<Edge>, b: TraceEvent, e: TraceEvent) {
    && b in trace && HasAdmitted(links, b, false) && HasAdmitted(links, b, true)
    && Communicates(links, e) && e.thread == b.thread && e.sequence != b.sequence && Admits(b.kind, e.kind)
  }

  lemma AdmittedIsAccepted(b: TraceEvent, e: TraceEvent)
    requires e.IsMemory()
    ensures Accepts(b.kind, e) <==> Admits(b.kind, e.kind)
  {
  }

  lemma SidesAreAdmitted(links: seq<Edge>, endpoints: seq<TraceEvent>, b: TraceEvent)
    requires forall e :: e in endpoints <==> Communicates(links, e) && e.thread == b.thread
    requires forall e :: e in endpoints ==> e.IsMemory()
    ensures AcceptedBefore(endpoints, b) != [] <==> HasAdmitted(links, b, false)
    ensures AcceptedAfter(endpoints, b) != [] <==> HasAdmitted(links, b, true)
  {
    var before, after := AcceptedBefore(endpoints, b), AcceptedAfter(endpoints, b);
    if before != [] { assert before[0] in before; AdmittedIsAccepted(b, before[0]); }
    if after != [] { assert after[0] in after; AdmittedIsAccepted(b, after[0]); }
    if c :| Communicates(links, c) && c.thread == b.thread && Admits(b.kind, c.kind) && c.sequence < b.sequence {
      AdmittedIsAccepted(b, c);
      assert c in before;
    }
    if c :| Communicates(links, c) && c.thread == b.thread && Admits(b.kind, c.kind) && b.sequence < c.sequence {
      AdmittedIsAccepted(b, c);
      assert c in after;
    }
  }

  lemma AdmittedIsSpanned(endpoints: seq<TraceEvent>, b: TraceEvent)
    requires SortedThread(endpoints) && (forall e :: e in endpoints ==> e.thread == b.thread)
    requires AcceptedBefore(endpoints, b) != [] && AcceptedAfter(endpoints, b) != []
    ensures Spanned(endpoints, b)
  {
    var x, y := AcceptedBefore(endpoints, b)[0], AcceptedAfter(endpoints, b)[0];
    assert x in AcceptedBefore(endpoints, b) && y in AcceptedAfter(endpoints, b);
    var i := IndexOf(endpoints, x);
    var j := IndexOf(endpoints, y);
    assert i > 0 ==> endpoints[0].Precedes(endpoints[i]);
    assert j < |endpoints| - 1 ==> endpoints[j].Precedes(endpoints[|endpoints| - 1]);
    assert endpoints[0] in endpoints;
  }

  /** What one thread adds to the graph. */
  lemma StarsByKind(trace: seq<TraceEvent>, links: seq<Edge>, endpoints: seq<TraceEvent>, thread: nat, b: TraceEvent,
                    e: TraceEvent)
    requires SortedThread(endpoints) && endpoints != []
    requires forall x :: x in endpoints <==> Communicates(links, x) && x.thread == thread
    requires forall x :: x in endpoints ==> x.IsMemory()
    ensures (b, e) in StarJoins(endpoints, SpanOf(trace, endpoints))
       <==> b.thread == thread && IsStar(trace, links, b, e)
  {
    assert endpoints[0] in endpoints;
    if b.thread == thread {
      SidesAreAdmitted(links, endpoints, b);
      if e in endpoints { AdmittedIsAccepted(b, e); }
      if AcceptedBefore(endpoints, b) != [] && AcceptedAfter(endpoints, b) != [] { AdmittedIsSpanned(endpoints, b); }
    }
  }

  lemma NextLiesBetween(endpoints: seq<TraceEvent>, i: nat, j: nat)
    requires SortedThread(endpoints) && i < j < |endpoints|
    ensures j == i + 1 || (endpoints[i + 1] in endpoints
                           && endpoints[i].Precedes(endpoints[i + 1]) && endpoints[i + 1].Precedes(endpoints[j]))
  {
  }

  lemma JoinedAreNeighbours(links: seq<Edge>, endpoints: seq<TraceEvent>, thread: nat, i: nat)
    requires SortedThread(endpoints) && i + 1 < |endpoints|
    requires forall x :: x in endpoints <==> Communicates(links, x) && x.thread == thread
    ensures endpoints[i].thread == thread && AreNeighbours(links, endpoints[i], endpoints[i + 1])
  {
    var a, b := endpoints[i], endpoints[i + 1];
    assert a.Precedes(b) && a in endpoints && b in endpoints;
    forall c | Communicates(links, c) && c.thread == a.thread ensures !(a.sequence < c.sequence < b.sequence) {
      var k := IndexOf(endpoints, c);
      assert k < i ==> endpoints[k].Precedes(a);
      assert k > i + 1 ==> b.Precedes(endpoints[k]);
    }
  }

  lemma NeighboursAreJoined(links: seq<Edge>, endpoints: seq<TraceEvent>, thread: nat, a: TraceEvent, b: TraceEvent)
    returns (i: nat)
    requires SortedThread(endpoints) && a.thread == thread && AreNeighbours(links, a, b)
    requires forall x :: x in endpoints <==> Communicates(links, x) && x.thread == thread
    ensures i + 1 < |endpoints| && (a, b) == (endpoints[i], endpoints[i + 1])
  {
    i := IndexOf(endpoints, a);
    var j := IndexOf(endpoints, b);
    assert i < j by { assert j < i ==> endpoints[j].Precedes(endpoints[i]); }
    NextLiesBetween(endpoints, i, j);
  }

  lemma NeighboursByNumber(links: seq<Edge>, endpoints: seq<TraceEvent>, thread: nat, a: TraceEvent, b: TraceEvent)
    requires SortedThread(endpoints)
    requires forall x :: x in endpoints <==> Communicates(links, x) && x.thread == thread
    ensures (a, b) in NeighbourJoins(endpoints, |endpoints|) <==> a.thread == thread && AreNeighbours(links, a, b)
  {
    if (a, b) in NeighbourJoins(endpoints, |endpoints|) {
      var i :| 0 <= i && i + 1 < |endpoints| && (a, b) == (endpoints[i], endpoints[i + 1]);
      JoinedAreNeighbours(links, endpoints, thread, i);
    }
    if a.thread == thread && AreNeighbours(links, a, b) {
      var i := NeighboursAreJoined(links, endpoints, thread, a, b);
    }
  }

  ghost predicate IsJoined(trace: seq<TraceEvent>, links: seq<Edge>, a: TraceEvent, b: TraceEvent) {
    (a, b) in links || AreNeighbours(links, a, b) || IsStar(trace, links, a, b)
  }

  lemma JoinsByKind(trace: seq<TraceEvent>, links: seq<Edge>, threads: map<nat, seq<TraceEvent>>, joins: Joins,
                    a: TraceEvent, b: TraceEvent)
    requires EndpointThreads(trace, links, threads) && JoinsAre(trace, links, threads, threads.Keys, joins)
    ensures (a, b) in joins <==> IsJoined(trace, links, a, b)
  {
    forall t | t in threads
      ensures (a, b) in ThreadJoins(trace, threads[t])
         <==> a.thread == t && (AreNeighbours(links, a, b) || IsStar(trace, links, a, b)) {
      forall x ensures x in threads[t] <==> Communicates(links, x) && x.thread == t {
        assert IsEnd(links, x) <==> Communicates(links, x);
      }
      StarsByKind(trace, links, threads[t], t, a, b);
      NeighboursByNumber(links, threads[t], t, a, b);
    }
    if AreNeighbours(links, a, b) || IsStar(trace, links, a, b) {
      var c :| Communicates(links, c) && c.thread == a.thread;
      assert IsEnd(links, c) && a.thread in threads;
    }
  }

  /** The grouping graph joins the ends of links, neighbouring endpoints of a thread, and boundaries with the endpoints
      they order if there are some on both sides; nothing else. */
  lemma GraphByKind(trace: seq<TraceEvent>, links: seq<Edge>, threads: map<nat, seq<TraceEvent>>, joins: Joins,
                    graph: Graph<TraceEvent>, a: TraceEvent, b: TraceEvent)
    requires EndpointThreads(trace, links, threads) && JoinsAre(trace, links, threads, threads.Keys, joins)
    requires Represents(graph, joins)
    ensures a in graph && b in graph[a] <==> IsJoined(trace, links, a, b) || IsJoined(trace, links, b, a)
  {
    JoinsByKind(trace, links, threads, joins, a, b);
    JoinsByKind(trace, links, threads, joins, b, a);
  }
}

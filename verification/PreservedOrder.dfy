/** The preserved program orders of a window: what x86-TSO keeps (the source) and what RVWMO keeps
    without knowing register dependencies (the target). */
module PreservedOrder {
  import opened Events
  import opened Graphs

  // ----- Declarative orders -----

  /** Which events a boundary orders against itself. */
  predicate Accepts(boundary: EventKind, e: TraceEvent) {
    match boundary
    case LFENCE => e.IsRead()
    case SFENCE => e.IsWrite()
    case MFENCE => e.IsMemory()
    case ATOMIC_RMW => e.IsMemory()
    case FUTEX_WAIT => e.IsMemory()
    case _ => false
  }

  predicate BoundaryPair(a: TraceEvent, b: TraceEvent) {
    a.Precedes(b) && (Accepts(a.kind, b) || Accepts(b.kind, a))
  }

  /** a is the nearest event before b that satisfies p. */
  ghost predicate NearestBefore(events: seq<TraceEvent>, p: TraceEvent -> bool, a: TraceEvent, b: TraceEvent) {
    p(a) && a.Precedes(b) && forall c :: c in events && p(c) && a.Precedes(c) ==> !c.Precedes(b)
  }

  const Reading := (e: TraceEvent) => e.IsRead()
  const Writing := (e: TraceEvent) => e.IsWrite()

  function WritingInto(target: TraceEvent): TraceEvent -> bool {
    (e: TraceEvent) => e.IsWrite() && e.Overlaps(target)
  }

  /** The source order as it is stored: each access is linked only to its nearest predecessors. */
  ghost predicate SparsePair(events: seq<TraceEvent>, a: TraceEvent, b: TraceEvent) {
    || ((b.IsRead() || b.IsWrite()) && NearestBefore(events, Reading, a, b))
    || (b.IsWrite() && NearestBefore(events, Writing, a, b))
    || (b.IsRead() && NearestBefore(events, WritingInto(b), a, b))
  }

  /** Everything x86-TSO keeps: all but a store followed by a load of other bytes. */
  predicate TsoPair(a: TraceEvent, b: TraceEvent) {
    && a.Precedes(b)
    && (|| (a.IsRead() && (b.IsRead() || b.IsWrite()))
        || (a.IsWrite() && b.IsWrite())
        || (a.IsWrite() && b.IsRead() && a.Overlaps(b))
        || BoundaryPair(a, b))
  }

  ghost predicate RvwmoPair(events: seq<TraceEvent>, a: TraceEvent, b: TraceEvent) {
    || (b.IsWrite() && a.IsMemory() && a.Precedes(b) && a.Overlaps(b))
    || (b.IsRead() && NearestBefore(events, WritingInto(b), a, b))
  }

  ghost function SparseOrder(events: seq<TraceEvent>): set<Edge> {
    set a, b | a in events && b in events && (SparsePair(events, a, b) || BoundaryPair(a, b)) :: (a, b)
  }

  ghost function TsoOrder(events: seq<TraceEvent>): set<Edge> {
    set a, b | a in events && b in events && TsoPair(a, b) :: (a, b)
  }

  ghost function RvwmoOrder(events: seq<TraceEvent>): set<Edge> {
    set a, b | a in events && b in events && (RvwmoPair(events, a, b) || BoundaryPair(a, b)) :: (a, b)
  }

  // ----- The sparse source order loses nothing -----

  lemma {:induction false} ReadChain(events: seq<TraceEvent>, a: TraceEvent, b: TraceEvent)
    requires a in events && b in events && a.Precedes(b)
    requires a.IsRead() && (b.IsRead() || b.IsWrite())
    ensures Reaches(SparseOrder(events), a, b)
    decreases b.sequence - a.sequence
  {
    if c :| c in events && Reading(c) && a.Precedes(c) && c.Precedes(b) {
      ReadChain(events, a, c);
      ReadChain(events, c, b);
      ReachesTransitive(SparseOrder(events), a, c, b);
    } else {
      assert NearestBefore(events, Reading, a, b);
      EdgeReaches(SparseOrder(events), a, b);
    }
  }

  lemma {:induction false} WriteChain(events: seq<TraceEvent>, a: TraceEvent, b: TraceEvent)
    requires a in events && b in events && a.Precedes(b) && a.IsWrite() && b.IsWrite()
    ensures Reaches(SparseOrder(events), a, b)
    decreases b.sequence - a.sequence
  {
    if c :| c in events && Writing(c) && a.Precedes(c) && c.Precedes(b) {
      WriteChain(events, a, c);
      WriteChain(events, c, b);
      ReachesTransitive(SparseOrder(events), a, c, b);
    } else {
      assert NearestBefore(events, Writing, a, b);
      EdgeReaches(SparseOrder(events), a, b);
    }
  }

  lemma {:induction false} ForwardingChain(events: seq<TraceEvent>, a: TraceEvent, b: TraceEvent)
    requires a in events && b in events && a.Precedes(b) && a.IsWrite() && b.IsRead() && a.Overlaps(b)
    ensures Reaches(SparseOrder(events), a, b)
    decreases b.sequence - a.sequence
  {
    if c :| c in events && WritingInto(b)(c) && a.Precedes(c) && c.Precedes(b) {
      WriteChain(events, a, c);
      ForwardingChain(events, c, b);
      ReachesTransitive(SparseOrder(events), a, c, b);
    } else {
      assert NearestBefore(events, WritingInto(b), a, b);
      EdgeReaches(SparseOrder(events), a, b);
    }
  }

  lemma TsoPairReached(events: seq<TraceEvent>, a: TraceEvent, b: TraceEvent)
    requires a in events && b in events && TsoPair(a, b)
    ensures Reaches(SparseOrder(events), a, b)
  {
    if a.IsRead() && (b.IsRead() || b.IsWrite()) {
      ReadChain(events, a, b);
    } else if a.IsWrite() && b.IsWrite() {
      WriteChain(events, a, b);
    } else if a.IsWrite() && b.IsRead() && a.Overlaps(b) {
      ForwardingChain(events, a, b);
    } else {
      EdgeReaches(SparseOrder(events), a, b);
    }
  }

  /** Linking nearest predecessors only keeps exactly the reachability of the full TSO order. */
  lemma SparseOrderIsComplete(events: seq<TraceEvent>)
    ensures SameReachability(SparseOrder(events), TsoOrder(events))
  {
    var sparse, tso := SparseOrder(events), TsoOrder(events);
    forall a, b | (a, b) in sparse ensures Reaches(tso, a, b) {
      EdgeReaches(tso, a, b);
    }
    forall a, b | (a, b) in tso ensures Reaches(sparse, a, b) {
      TsoPairReached(events, a, b);
    }
    ReachabilityInclusion(sparse, tso);
    ReachabilityInclusion(tso, sparse);
  }

  /** Whatever RVWMO is trusted to keep, x86-TSO keeps as well. */
  lemma TargetInsideSource(events: seq<TraceEvent>)
    ensures forall a, b :: (a, b) in RvwmoOrder(events) ==> Reaches(SparseOrder(events), a, b)
  {
    forall a, b | (a, b) in RvwmoOrder(events) ensures Reaches(SparseOrder(events), a, b) {
      assert TsoPair(a, b);
      TsoPairReached(events, a, b);
    }
  }

  lemma OrdersFollowProgramOrder(events: seq<TraceEvent>)
    ensures forall a, b :: Reaches(SparseOrder(events), a, b) ==> a.Precedes(b)
    ensures forall a, b :: Reaches(RvwmoOrder(events), a, b) ==> a.Precedes(b)
  {
    forall a, b | Reaches(SparseOrder(events), a, b) ensures a.Precedes(b) {
      var p :| WalkFromTo(SparseOrder(events), p, a, b);
      WalkFollowsProgramOrder(SparseOrder(events), p, |p| - 1);
    }
    forall a, b | Reaches(RvwmoOrder(events), a, b) ensures a.Precedes(b) {
      var p :| WalkFromTo(RvwmoOrder(events), p, a, b);
      WalkFollowsProgramOrder(RvwmoOrder(events), p, |p| - 1);
    }
  }

  lemma {:induction false} WalkFollowsProgramOrder(edges: set<Edge>, p: seq<TraceEvent>, n: nat)
    requires forall a, b :: (a, b) in edges ==> a.Precedes(b)
    requires IsWalk(edges, p) && 1 <= n < |p|
    ensures p[0].Precedes(p[n])
  {
    assert (p[n - 1], p[n]) in edges;
    if n > 1 { WalkFollowsProgramOrder(edges, p, n - 1); }
  }

  lemma OrdersAreAcyclic(events: seq<TraceEvent>)
    ensures Acyclic(SparseOrder(events)) && Acyclic(RvwmoOrder(events))
  {
    OrdersFollowProgramOrder(events);
    AcyclicIffNoSelfReach(SparseOrder(events));
    AcyclicIffNoSelfReach(RvwmoOrder(events));
  }

  /** An execution the source accepts is accepted by the target: adding the same communication
      relation, a target cycle always shows up as a source cycle. */
  lemma SourceAcceptanceCarriesOver(events: seq<TraceEvent>, communication: set<Edge>)
    requires Acyclic(SparseOrder(events) + communication)
    ensures Acyclic(RvwmoOrder(events) + communication)
  {
    var source, target := SparseOrder(events) + communication, RvwmoOrder(events) + communication;
    TargetInsideSource(events);
    forall a, b | (a, b) in target ensures Reaches(source, a, b) {
      if (a, b) in communication {
        EdgeReaches(source, a, b);
      } else {
        ReachesMonotone(SparseOrder(events), source, a, b);
      }
    }
    AcyclicThroughInclusion(target, source);
  }

  // ----- Building the orders -----

  function InsertBySequence(events: seq<TraceEvent>, e: TraceEvent): (r: seq<TraceEvent>)
    requires SortedThread(events)
    requires forall x :: x in events ==> x.thread == e.thread && x.sequence != e.sequence
    ensures SortedThread(r)
    ensures forall x :: x in r <==> x == e || x in events
    ensures |r| == |events| + 1
  {
    if events == [] || e.sequence < events[0].sequence then
      [e] + events
    else
      var rest := InsertBySequence(events[1..], e);
      assert forall x :: x in events <==> x == events[0] || x in events[1..];
      assert events[0].Precedes(e);
      assert forall x :: x in rest ==> events[0].Precedes(x);
      [events[0]] + rest
  }

  ghost predicate GroupedByThread(events: seq<TraceEvent>, threads: map<nat, seq<TraceEvent>>) {
    && (forall e :: e in events ==> e.thread in threads && e in threads[e.thread])
    && (forall t :: t in threads ==>
          SortedThread(threads[t]) && forall e :: e in threads[t] ==> e in events && e.thread == t)
  }

  method ByThread(events: seq<TraceEvent>) returns (threads: map<nat, seq<TraceEvent>>)
    requires ValidEvents(events)
    ensures GroupedByThread(events, threads)
  {
    threads := map[];
    for i := 0 to |events|
      invariant GroupedByThread(events[..i], threads)
    {
      var e := events[i];
      var current := if e.thread in threads then threads[e.thread] else [];
      threads := threads[e.thread := InsertBySequence(current, e)];
      assert events[..i + 1] == events[..i] + [e];
    }
    assert events[..|events|] == events;
  }

  /** Boundary edges whose boundary is among the first n events. */
  ghost function BoundaryEdgesUpTo(events: seq<TraceEvent>, n: nat): set<Edge>
    requires n <= |events|
  {
    set a, b | a in events && b in events && a.Precedes(b)
               && ((a in events[..n] && Accepts(a.kind, b)) || (b in events[..n] && Accepts(b.kind, a))) :: (a, b)
  }

  lemma BoundaryStep(events: seq<TraceEvent>, n: nat)
    requires SortedThread(events) && n < |events|
    ensures BoundaryEdgesUpTo(events, n + 1) ==
            BoundaryEdgesUpTo(events, n)
            + (set left | left in events[..n] && Accepts(events[n].kind, left) :: (left, events[n]))
            + (set right | right in events[n + 1..] && Accepts(events[n].kind, right) :: (events[n], right))
  {
    assert events[..n + 1] == events[..n] + [events[n]];
    assert events == events[..n] + [events[n]] + events[n + 1..];
    assert forall e :: e in events[..n] ==> e.Precedes(events[n]);
    assert forall e :: e in events[n + 1..] ==> events[n].Precedes(e);
  }

  method BoundaryEdges(events: seq<TraceEvent>) returns (edges: set<Edge>)
    requires SortedThread(events)
    ensures edges == set a, b | a in events && b in events && BoundaryPair(a, b) :: (a, b)
  {
    edges := {};
    for i := 0 to |events|
      invariant edges == BoundaryEdgesUpTo(events, i)
    {
      var boundary := events[i];
      var before, after := events[..i], events[i + 1..];
      BoundaryStep(events, i);
      edges := edges
        + (set left | left in before && Accepts(boundary.kind, left) :: (left, boundary))
        + (set right | right in after && Accepts(boundary.kind, right) :: (boundary, right));
    }
    assert events[..|events|] == events;
  }

  /** Index form of the search for the last event before n that satisfies p. */
  ghost predicate IsLast(events: seq<TraceEvent>, n: nat, p: TraceEvent -> bool, last: Option<TraceEvent>)
    requires n <= |events|
  {
    match last
    case None => forall e :: e in events[..n] ==> !p(e)
    case Some(found) => exists k :: 0 <= k < n && events[k] == found && p(found)
                                    && forall m :: k < m < n ==> !p(events[m])
  }

  lemma LastIsNearest(events: seq<TraceEvent>, n: nat, p: TraceEvent -> bool, last: Option<TraceEvent>, a: TraceEvent)
    requires SortedThread(events) && n < |events| && IsLast(events, n, p, last) && a in events
    ensures NearestBefore(events, p, a, events[n]) <==> last == Some(a)
  {
    var i :| 0 <= i < |events| && events[i] == a;
    assert a.Precedes(events[n]) ==> i < n;
    assert i < n ==> a in events[..n];
    match last {
      case None =>
      case Some(found) =>
        var k :| 0 <= k < n && events[k] == found && p(found) && forall m :: k < m < n ==> !p(events[m]);
        assert found.Precedes(events[n]);
        assert i < k ==> a.Precedes(found);
        assert a == found ==> i == k;
        forall c | c in events && p(c) && c.Precedes(events[n]) ensures !found.Precedes(c) {
          var j :| 0 <= j < |events| && events[j] == c;
          assert j <= k;
        }
    }
  }

  method LastWriteInto(events: seq<TraceEvent>, n: nat) returns (last: Option<TraceEvent>)
    requires SortedThread(events) && n < |events|
    ensures IsLast(events, n, WritingInto(events[n]), last)
  {
    last := None;
    var k := n;
    while k > 0
      invariant 0 <= k <= n
      invariant forall m :: k <= m < n ==> !WritingInto(events[n])(events[m])
    {
      k := k - 1;
      if events[k].IsWrite() && events[k].Overlaps(events[n]) {
        return Some(events[k]);
      }
    }
  }

  /** Non-boundary source edges into the first n events. */
  ghost function SparseEdgesUpTo(events: seq<TraceEvent>, n: nat): set<Edge>
    requires n <= |events|
  {
    set a, b | a in events && b in events[..n] && SparsePair(events, a, b) :: (a, b)
  }

  function NearestSources(e: TraceEvent, read: Option<TraceEvent>, write: Option<TraceEvent>,
                          forwarded: Option<TraceEvent>): set<TraceEvent> {
    (if (e.IsRead() || e.IsWrite()) && read.Some? then {read.value} else {})
    + (if e.IsWrite() && write.Some? then {write.value} else {})
    + (if e.IsRead() && forwarded.Some? then {forwarded.value} else {})
  }

  lemma SparseStep(events: seq<TraceEvent>, n: nat, read: Option<TraceEvent>, write: Option<TraceEvent>,
                   forwarded: Option<TraceEvent>, a: TraceEvent)
    requires SortedThread(events) && n < |events| && a in events
    requires IsLast(events, n, Reading, read) && IsLast(events, n, Writing, write)
    requires events[n].IsRead() ==> IsLast(events, n, WritingInto(events[n]), forwarded)
    ensures SparsePair(events, a, events[n]) <==> a in NearestSources(events[n], read, write, forwarded)
  {
    LastIsNearest(events, n, Reading, read, a);
    LastIsNearest(events, n, Writing, write, a);
    if events[n].IsRead() { LastIsNearest(events, n, WritingInto(events[n]), forwarded, a); }
  }

  lemma LastAdvances(events: seq<TraceEvent>, n: nat, p: TraceEvent -> bool, last: Option<TraceEvent>)
    requires n < |events| && IsLast(events, n, p, last)
    ensures IsLast(events, n + 1, p, if p(events[n]) then Some(events[n]) else last)
    ensures last.Some? ==> last.value in events
  {
    assert events[..n + 1] == events[..n] + [events[n]];
  }

  method SourceEdgesInto(events: seq<TraceEvent>, i: nat, previousRead: Option<TraceEvent>,
                         previousWrite: Option<TraceEvent>) returns (edges: set<Edge>)
    requires SortedThread(events) && i < |events|
    requires IsLast(events, i, Reading, previousRead) && IsLast(events, i, Writing, previousWrite)
    ensures SparseEdgesUpTo(events, i + 1) == SparseEdgesUpTo(events, i) + edges
  {
    edges := {};
    var event := events[i];
    var forwarded: Option<TraceEvent> := None;
    if event.IsRead() && previousRead.Some? {
      edges := edges + {(previousRead.value, event)};
    }
    if event.IsWrite() {
      if previousRead.Some? { edges := edges + {(previousRead.value, event)}; }
      if previousWrite.Some? { edges := edges + {(previousWrite.value, event)}; }
    }
    if event.IsRead() {
      forwarded := LastWriteInto(events, i);
      if forwarded.Some? { edges := edges + {(forwarded.value, event)}; }
    }
    assert edges == set a | a in NearestSources(event, previousRead, previousWrite, forwarded) :: (a, event);
    SparseEdgesStep(events, i, previousRead, previousWrite, forwarded);
  }

  method SourceThreadOrder(events: seq<TraceEvent>) returns (edges: set<Edge>)
    requires SortedThread(events)
    ensures edges == SparseOrder(events)
  {
    edges := {};
    var previousRead, previousWrite: Option<TraceEvent> := None, None;
    for i := 0 to |events|
      invariant IsLast(events, i, Reading, previousRead) && IsLast(events, i, Writing, previousWrite)
      invariant edges == SparseEdgesUpTo(events, i)
    {
      var added := SourceEdgesInto(events, i, previousRead, previousWrite);
      edges := edges + added;
      LastAdvances(events, i, Reading, previousRead);
      LastAdvances(events, i, Writing, previousWrite);
      if events[i].IsRead() { previousRead := Some(events[i]); }
      if events[i].IsWrite() { previousWrite := Some(events[i]); }
    }
    var boundary := BoundaryEdges(events);
    SparseParts(events);
    edges := edges + boundary;
  }

  lemma SparseParts(events: seq<TraceEvent>)
    ensures SparseOrder(events) == SparseEdgesUpTo(events, |events|)
            + set a, b | a in events && b in events && BoundaryPair(a, b) :: (a, b)
  {
    assert events[..|events|] == events;
  }

  lemma SparseEdgesStep(events: seq<TraceEvent>, n: nat, read: Option<TraceEvent>, write: Option<TraceEvent>,
                        forwarded: Option<TraceEvent>)
    requires SortedThread(events) && n < |events|
    requires IsLast(events, n, Reading, read) && IsLast(events, n, Writing, write)
    requires if events[n].IsRead() then IsLast(events, n, WritingInto(events[n]), forwarded) else forwarded == None
    ensures SparseEdgesUpTo(events, n + 1) == SparseEdgesUpTo(events, n)
            + (set a | a in NearestSources(events[n], read, write, forwarded) :: (a, events[n]))
  {
    assert events[..n + 1] == events[..n] + [events[n]];
    LastAdvances(events, n, Reading, read);
    LastAdvances(events, n, Writing, write);
    if events[n].IsRead() { LastAdvances(events, n, WritingInto(events[n]), forwarded); }
    forall a | a in events
      ensures SparsePair(events, a, events[n]) <==> a in NearestSources(events[n], read, write, forwarded) {
      SparseStep(events, n, read, write, forwarded, a);
    }
  }

  function MemoryOf(events: seq<TraceEvent>): (r: seq<TraceEvent>)
    requires SortedThread(events)
    ensures SortedThread(r) && forall e :: e in r <==> e in events && e.IsMemory()
  {
    if events == [] then []
    else
      var rest := MemoryOf(events[1..]);
      assert forall e :: e in events <==> e == events[0] || e in events[1..];
      assert forall e :: e in rest ==> events[0].Precedes(e);
      if events[0].IsMemory() then [events[0]] + rest else rest
  }

  ghost function RvwmoEdgesUpTo(events: seq<TraceEvent>, n: nat): set<Edge>
    requires n <= |events|
  {
    set a, b | a in events && b in events[..n] && RvwmoPair(events, a, b) :: (a, b)
  }

  function OverlapSources(memory: seq<TraceEvent>, n: nat, forwarded: Option<TraceEvent>): set<TraceEvent>
    requires n < |memory|
  {
    (if memory[n].IsWrite() then set left | left in memory[..n] && left.Overlaps(memory[n]) else {})
    + (if memory[n].IsRead() && forwarded.Some? then {forwarded.value} else {})
  }

  lemma RvwmoStep(memory: seq<TraceEvent>, n: nat, forwarded: Option<TraceEvent>)
    requires SortedThread(memory) && n < |memory| && forall e :: e in memory ==> e.IsMemory()
    requires if memory[n].IsRead() then IsLast(memory, n, WritingInto(memory[n]), forwarded) else forwarded == None
    ensures RvwmoEdgesUpTo(memory, n + 1) ==
            RvwmoEdgesUpTo(memory, n)
            + (set a | a in OverlapSources(memory, n, forwarded) :: (a, memory[n]))
  {
    assert memory[..n + 1] == memory[..n] + [memory[n]];
    if memory[n].IsRead() { LastAdvances(memory, n, WritingInto(memory[n]), forwarded); }
    forall a | a in memory ensures a in memory[..n] <==> a.Precedes(memory[n]) {
      var i :| 0 <= i < |memory| && memory[i] == a;
      assert i < n ==> a in memory[..n];
    }
    forall a | a in memory
      ensures RvwmoPair(memory, a, memory[n]) <==> a in OverlapSources(memory, n, forwarded) {
      if memory[n].IsRead() { LastIsNearest(memory, n, WritingInto(memory[n]), forwarded, a); }
    }
  }

  method OverlapEdges(memory: seq<TraceEvent>) returns (edges: set<Edge>)
    requires SortedThread(memory) && forall e :: e in memory ==> e.IsMemory()
    ensures edges == RvwmoEdgesUpTo(memory, |memory|)
  {
    edges := {};
    for i := 0 to |memory|
      invariant edges == RvwmoEdgesUpTo(memory, i)
    {
      var right := memory[i];
      var added: set<Edge> := {};
      var forwarded: Option<TraceEvent> := None;
      if right.IsWrite() {
        added := added + set left | left in memory[..i] && left.Overlaps(right) :: (left, right);
      }
      if right.IsRead() {
        forwarded := LastWriteInto(memory, i);
        if forwarded.Some? { added := added + {(forwarded.value, right)}; }
      }
      assert added == set a | a in OverlapSources(memory, i, forwarded) :: (a, right);
      RvwmoStep(memory, i, forwarded);
      edges := edges + added;
    }
  }

  lemma RvwmoParts(events: seq<TraceEvent>, memory: seq<TraceEvent>)
    requires forall e :: e in memory <==> e in events && e.IsMemory()
    ensures RvwmoOrder(events) == RvwmoEdgesUpTo(memory, |memory|)
            + set a, b | a in events && b in events && BoundaryPair(a, b) :: (a, b)
  {
    assert memory[..|memory|] == memory;
    forall a, b | a in events && b in events ensures RvwmoPair(events, a, b) <==>
        a in memory && b in memory && RvwmoPair(memory, a, b) {
      assert forall c :: c in events && WritingInto(b)(c) <==> c in memory && WritingInto(b)(c);
    }
  }

  method TargetThreadOrder(events: seq<TraceEvent>) returns (edges: set<Edge>)
    requires SortedThread(events)
    ensures edges == RvwmoOrder(events)
  {
    var memory := MemoryOf(events);
    edges := OverlapEdges(memory);
    var boundary := BoundaryEdges(events);
    RvwmoParts(events, memory);
    edges := edges + boundary;
  }

  // ----- Whole windows -----

  lemma ThreadOrders(events: seq<TraceEvent>, threads: map<nat, seq<TraceEvent>>, t: nat)
    requires GroupedByThread(events, threads) && t in threads
    ensures SparseOrder(threads[t]) == set e | e in SparseOrder(events) && e.0.thread == t
    ensures RvwmoOrder(threads[t]) == set e | e in RvwmoOrder(events) && e.0.thread == t
  {
    var own := threads[t];
    assert forall e :: e in own <==> e in events && e.thread == t;
    forall p: TraceEvent -> bool, a, b | a in own && b in own
      ensures NearestBefore(own, p, a, b) <==> NearestBefore(events, p, a, b) {
    }
    forall a, b | a in own && b in own
      ensures SparsePair(own, a, b) <==> SparsePair(events, a, b)
      ensures RvwmoPair(own, a, b) <==> RvwmoPair(events, a, b) {
    }
  }

  method SourcePreservedOrder(events: seq<TraceEvent>) returns (edges: set<Edge>)
    requires ValidEvents(events)
    ensures edges == SparseOrder(events)
    ensures SameReachability(edges, TsoOrder(events))
  {
    var threads := ByThread(events);
    edges := {};
    var rest := threads.Keys;
    while rest != {}
      invariant rest <= threads.Keys
      invariant edges == set e | e in SparseOrder(events) && e.0.thread !in rest
      decreases rest
    {
      var t :| t in rest;
      var order := SourceThreadOrder(threads[t]);
      ThreadOrders(events, threads, t);
      edges, rest := edges + order, rest - {t};
    }
    SparseOrderIsComplete(events);
  }

  method TargetPreservedOrder(events: seq<TraceEvent>) returns (edges: set<Edge>)
    requires ValidEvents(events)
    ensures edges == RvwmoOrder(events)
  {
    var threads := ByThread(events);
    edges := {};
    var rest := threads.Keys;
    while rest != {}
      invariant rest <= threads.Keys
      invariant edges == set e | e in RvwmoOrder(events) && e.0.thread !in rest
      decreases rest
    {
      var t :| t in rest;
      var order := TargetThreadOrder(threads[t]);
      ThreadOrders(events, threads, t);
      edges, rest := edges + order, rest - {t};
    }
  }
}

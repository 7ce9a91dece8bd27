/** What an execution of a window is, independently of how it is searched for: a source for every
    read part and one total order per group of overlapping writes. */
module Executions {
  import opened Events
  import opened Graphs
  import opened PreservedOrder
  import opened ReadParts

  function Select(events: seq<TraceEvent>, p: TraceEvent -> bool): (r: seq<TraceEvent>)
    ensures forall e :: e in r <==> e in events && p(e)
    ensures Distinct(events) ==> Distinct(r)
  {
    if events == [] then []
    else
      var rest := Select(events[1..], p);
      assert forall e :: e in events <==> e == events[0] || e in events[1..];
      if p(events[0]) then [events[0]] + rest else rest
  }

  ghost predicate Distinct<T>(s: seq<T>) {
    forall i, j :: 0 <= i < j < |s| ==> s[i] != s[j]
  }

  function Writes(events: seq<TraceEvent>): (r: seq<TraceEvent>)
    ensures forall e :: e in r <==> e in events && e.IsWrite()
  {
    Select(events, Writing)
  }

  function Reads(events: seq<TraceEvent>): (r: seq<TraceEvent>)
    ensures forall e :: e in r <==> e in events && e.IsRead()
  {
    Select(events, Reading)
  }

  // ----- Groups of writes that share a coherence order -----

  ghost function OverlapGraph(writes: seq<TraceEvent>): set<Edge> {
    set a, b | a in writes && b in writes && a.Overlaps(b) :: (a, b)
  }

  /** All writes linked to w by a chain of overlaps. */
  ghost function OverlapClass(writes: seq<TraceEvent>, w: TraceEvent): set<TraceEvent> {
    set v | v in writes && (v == w || Reaches(OverlapGraph(writes), w, v))
  }

  ghost predicate Arranges(line: seq<TraceEvent>, members: set<TraceEvent>) {
    Distinct(line) && forall v :: v in line <==> v in members
  }

  /** A coherence order of one group: it never reverses overlapping writes of one thread. */
  ghost predicate KeepsThreadOrder(line: seq<TraceEvent>) {
    forall i, j :: 0 <= i < j < |line| && line[i].Overlaps(line[j]) ==> !line[j].Precedes(line[i])
  }

  // ----- Executions -----

  /** rf gives the write each read part takes its value from (None: the initial contents); line gives
      every write the coherence order of its group. */
  datatype Execution = Execution(rf: map<ReadPart, Option<TraceEvent>>, line: map<TraceEvent, seq<TraceEvent>>)

  ghost predicate IsPartOf(events: seq<TraceEvent>, p: ReadPart) {
    p.event in events && p.event.IsRead() && IsPart(Writes(events), p)
  }

  /** A write may feed a part if it stores all of it and is not a later (or the same) event of the
      reading thread. */
  predicate MayFeed(w: TraceEvent, p: ReadPart) {
    && w.IsWrite()
    && Covers(w, p.address, p.EndAddress())
    && !(w.thread == p.event.thread && w.sequence >= p.event.sequence)
  }

  ghost predicate LegalReadFrom(events: seq<TraceEvent>, x: Execution) {
    forall p :: IsPartOf(events, p) ==>
      p in x.rf && (x.rf[p].Some? ==> x.rf[p].value in events && MayFeed(x.rf[p].value, p))
  }

  ghost predicate LegalCoherence(events: seq<TraceEvent>, x: Execution) {
    forall w :: w in events && w.IsWrite() ==>
      && w in x.line
      && Arranges(x.line[w], OverlapClass(Writes(events), w))
      && KeepsThreadOrder(x.line[w])
      && forall v :: v in x.line[w] ==> v in x.line && x.line[v] == x.line[w]
  }

  ghost predicate Before(x: Execution, a: TraceEvent, b: TraceEvent) {
    a in x.line && exists i, j :: 0 <= i < j < |x.line[a]| && x.line[a][i] == a && x.line[a][j] == b
  }

  ghost predicate ImmediatelyBefore(x: Execution, a: TraceEvent, b: TraceEvent) {
    a in x.line && exists i :: 0 <= i < |x.line[a]| - 1 && x.line[a][i] == a && x.line[a][i + 1] == b
  }

  ghost predicate IsFirst(x: Execution, a: TraceEvent) {
    a in x.line && |x.line[a]| > 0 && x.line[a][0] == a
  }

  /** No write comes between the source of an atomic read and its own write. */
  ghost predicate AtomicsAdjacent(events: seq<TraceEvent>, x: Execution) {
    forall p :: IsPartOf(events, p) && p.event.kind.ATOMIC_RMW? && p in x.rf ==>
      match x.rf[p]
      case None => IsFirst(x, p.event)
      case Some(w) => ImmediatelyBefore(x, w, p.event)
  }

  ghost predicate Legal(events: seq<TraceEvent>, x: Execution) {
    LegalReadFrom(events, x) && LegalCoherence(events, x) && AtomicsAdjacent(events, x)
  }

  ghost predicate CoherenceEdge(events: seq<TraceEvent>, x: Execution, a: TraceEvent, b: TraceEvent) {
    a in events && b in events && a.IsWrite() && b.IsWrite() && a.Overlaps(b) && Before(x, a, b)
  }

  /** Only reads from another thread enter the global order. */
  ghost predicate ReadFromEdge(events: seq<TraceEvent>, x: Execution, p: ReadPart, a: TraceEvent, b: TraceEvent) {
    IsPartOf(events, p) && p in x.rf && x.rf[p] == Some(a) && b == p.event && a.thread != b.thread
  }

  /** A part is read before every overlapping write that overwrites its source. */
  ghost predicate FromReadEdge(events: seq<TraceEvent>, x: Execution, p: ReadPart, a: TraceEvent, b: TraceEvent) {
    && IsPartOf(events, p) && p in x.rf && a == p.event && b in events && b.IsWrite() && b != a && Meets(b, p)
    && (x.rf[p].Some? ==> x.rf[p].value.Overlaps(b) && Before(x, x.rf[p].value, b))
  }

  ghost predicate Communicates(events: seq<TraceEvent>, x: Execution, a: TraceEvent, b: TraceEvent) {
    || CoherenceEdge(events, x, a, b)
    || exists p :: ReadFromEdge(events, x, p, a, b) || FromReadEdge(events, x, p, a, b)
  }

  ghost function Communication(events: seq<TraceEvent>, x: Execution): set<Edge> {
    set a, b | a in events && b in events && Communicates(events, x, a, b) :: (a, b)
  }

  ghost predicate AllowedByTarget(events: seq<TraceEvent>, x: Execution) {
    Acyclic(RvwmoOrder(events) + Communication(events, x))
  }

  ghost predicate AllowedBySource(events: seq<TraceEvent>, x: Execution) {
    Acyclic(SparseOrder(events) + Communication(events, x))
  }

  /** An execution that only the weaker machine can show. */
  ghost predicate TargetOnly(events: seq<TraceEvent>, x: Execution) {
    Legal(events, x) && AllowedByTarget(events, x) && !AllowedBySource(events, x)
  }

  /** The target never forbids what the source allows, so "target only" is the only way to differ. */
  lemma SourceExecutionsAreTargetExecutions(events: seq<TraceEvent>, x: Execution)
    ensures AllowedBySource(events, x) ==> AllowedByTarget(events, x)
  {
    if AllowedBySource(events, x) {
      SourceAcceptanceCarriesOver(events, Communication(events, x));
    }
  }

  // ----- Positions in a coherence order -----

  lemma BeforeByPosition(events: seq<TraceEvent>, x: Execution, a: TraceEvent, b: TraceEvent, i: nat, j: nat)
    requires LegalCoherence(events, x) && a in events && a.IsWrite()
    requires i < |x.line[a]| && x.line[a][i] == a && j < |x.line[a]| && x.line[a][j] == b
    ensures Before(x, a, b) <==> i < j
    ensures ImmediatelyBefore(x, a, b) <==> j == i + 1
    ensures IsFirst(x, a) <==> i == 0
  {
  }

  lemma SameClassSameLine(events: seq<TraceEvent>, x: Execution, a: TraceEvent, b: TraceEvent)
    requires LegalCoherence(events, x)
    requires a in events && b in events && a.IsWrite() && b.IsWrite() && a.Overlaps(b)
    ensures b in x.line[a] && x.line[b] == x.line[a]
  {
    EdgeReaches(OverlapGraph(Writes(events)), a, b);
    assert b in OverlapClass(Writes(events), a);
  }
}

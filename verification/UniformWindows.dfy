/** Windows that can be enumerated, and the executions the enumeration lists. */
module UniformWindows {
  import opened Events
  import opened Graphs
  import opened ReadParts
  import opened Executions
  import opened Components
  import opened Enumeration

  datatype Location = Location(address: nat, size: nat)

  function LocationOf(e: TraceEvent): Location { Location(e.address, e.size) }

  /** No access overlaps a write of another location, except reads inside a wider write. */
  ghost predicate Uniform(events: seq<TraceEvent>) {
    && (forall a, b :: a in Writes(events) && b in Writes(events) && a.Overlaps(b) ==> LocationOf(a) == LocationOf(b))
    && (forall r, w :: r in Reads(events) && w in Writes(events) && w.Overlaps(r) ==>
          Covers(w, r.address, r.EndAddress()))
  }

  function WholePart(read: TraceEvent): ReadPart { ReadPart(read, read.address, read.size) }

  function WritesAt(events: seq<TraceEvent>, l: Location): (r: seq<TraceEvent>)
    ensures forall w :: w in r <==> w in events && w.IsWrite() && LocationOf(w) == l
    ensures Distinct(events) ==> Distinct(r)
  {
    Select(events, (w: TraceEvent) => w.IsWrite() && LocationOf(w) == l)
  }

  lemma UniformParts(events: seq<TraceEvent>, p: ReadPart)
    requires ValidEvents(events) && Uniform(events)
    ensures IsPartOf(events, p) <==> p.event in Reads(events) && p == WholePart(p.event)
  {
    if p.event in Reads(events) { CoveredReadHasOnePart(Writes(events), p); }
  }

  lemma UniformClasses(events: seq<TraceEvent>, w: TraceEvent)
    requires ValidEvents(events) && Uniform(events) && w in Writes(events)
    ensures forall v :: v in OverlapClass(Writes(events), w) <==> v in WritesAt(events, LocationOf(w))
  {
    var here := set v | v in WritesAt(events, LocationOf(w));
    forall v | v in here ensures v == w || Reaches(OverlapGraph(Writes(events)), w, v) {
      EdgeReaches(OverlapGraph(Writes(events)), w, v);
    }
    ClosedSetIsClass(Writes(events), here, w, w);
  }

  // ----- The executions that are listed -----

  /** Read sources allowed by the search: the initial contents or a covering write that is not in the
      reader's own future. */
  function Choices(events: seq<TraceEvent>, read: TraceEvent): (r: seq<Option<TraceEvent>>)
    ensures forall c :: c in r <==> c.None? || (c.value in events && MayFeed(c.value, WholePart(read)))
  {
    var feeding := Select(events, (w: TraceEvent) => MayFeed(w, WholePart(read)));
    var some := seq(|feeding|, i requires 0 <= i < |feeding| => Some(feeding[i]));
    assert forall c :: c in some <==> c.Some? && c.value in feeding by {
      assert forall i :: 0 <= i < |some| ==> some[i].value == feeding[i];
      forall w | w in feeding ensures Some(w) in some {
        var i :| 0 <= i < |feeding| && feeding[i] == w;
        assert some[i] == Some(w);
      }
    }
    [None] + some
  }

  /** A linear extension of per-thread order over the writes of one location. */
  ghost predicate IsLocationOrder(events: seq<TraceEvent>, l: Location, order: seq<TraceEvent>) {
    && Distinct(order) && SameMembers(order, WritesAt(events, l))
    && forall i, j :: 0 <= i < j < |order| ==> !order[j].Precedes(order[i])
  }

  ghost predicate OrdersEveryLocation(events: seq<TraceEvent>, orders: map<Location, seq<TraceEvent>>) {
    && (forall w :: w in Writes(events) ==> LocationOf(w) in orders)
    && (forall l :: l in orders ==> IsLocationOrder(events, l, orders[l]))
  }

  ghost function Listed(events: seq<TraceEvent>, sources: seq<Option<TraceEvent>>,
                        orders: map<Location, seq<TraceEvent>>): Execution
    requires Distinct(Reads(events)) && |sources| == |Reads(events)|
    requires OrdersEveryLocation(events, orders)
  {
    Execution(
      map i | 0 <= i < |sources| :: WholePart(Reads(events)[i]) := sources[i],
      map w | w in Writes(events) :: orders[LocationOf(w)])
  }

  ghost predicate SourcesAreChoices(events: seq<TraceEvent>, sources: seq<Option<TraceEvent>>) {
    |sources| == |Reads(events)| && forall i :: 0 <= i < |sources| ==> sources[i] in Choices(events, Reads(events)[i])
  }

  lemma ReadsAreDistinct(events: seq<TraceEvent>)
    requires ValidEvents(events)
    ensures Distinct(events) && Distinct(Reads(events)) && Distinct(Writes(events))
  {
  }

  lemma ListedReadFromIsLegal(events: seq<TraceEvent>, sources: seq<Option<TraceEvent>>,
                              orders: map<Location, seq<TraceEvent>>, p: ReadPart)
    requires Distinct(Reads(events)) && SourcesAreChoices(events, sources) && OrdersEveryLocation(events, orders)
    requires p.event in Reads(events) && p == WholePart(p.event)
    ensures p in Listed(events, sources, orders).rf
    ensures Listed(events, sources, orders).rf[p] in Choices(events, p.event)
  {
    var i :| 0 <= i < |Reads(events)| && Reads(events)[i] == p.event;
    assert sources[i] in Choices(events, Reads(events)[i]);
  }

  lemma ListedLineIsLegal(events: seq<TraceEvent>, sources: seq<Option<TraceEvent>>,
                          orders: map<Location, seq<TraceEvent>>, w: TraceEvent)
    requires ValidEvents(events) && Uniform(events) && w in Writes(events)
    requires Distinct(Reads(events)) && |sources| == |Reads(events)| && OrdersEveryLocation(events, orders)
    ensures var line := Listed(events, sources, orders).line;
      && Arranges(line[w], OverlapClass(Writes(events), w)) && KeepsThreadOrder(line[w])
      && forall v :: v in line[w] ==> v in line && line[v] == line[w]
  {
    UniformClasses(events, w);
    assert IsLocationOrder(events, LocationOf(w), orders[LocationOf(w)]);
  }

  /** Everything the search lists has a legal read-from and coherence. */
  lemma ListedIsLegal(events: seq<TraceEvent>, sources: seq<Option<TraceEvent>>, orders: map<Location, seq<TraceEvent>>)
    requires ValidEvents(events) && Uniform(events)
    requires SourcesAreChoices(events, sources) && OrdersEveryLocation(events, orders)
    ensures Distinct(Reads(events))
    ensures LegalReadFrom(events, Listed(events, sources, orders))
    ensures LegalCoherence(events, Listed(events, sources, orders))
  {
    ReadsAreDistinct(events);
    forall p | IsPartOf(events, p)
      ensures p in Listed(events, sources, orders).rf
      ensures Listed(events, sources, orders).rf[p] in Choices(events, p.event) && p == WholePart(p.event) {
      UniformParts(events, p);
      ListedReadFromIsLegal(events, sources, orders, p);
    }
    forall w | w in Writes(events) { ListedLineIsLegal(events, sources, orders, w); }
  }

  ghost predicate SameOn(events: seq<TraceEvent>, x: Execution, y: Execution) {
    && (forall p :: IsPartOf(events, p) ==> p in x.rf && p in y.rf && x.rf[p] == y.rf[p])
    && (forall w :: w in Writes(events) ==> w in x.line && w in y.line && x.line[w] == y.line[w])
  }

  lemma SameOnIsEnough(events: seq<TraceEvent>, x: Execution, y: Execution)
    requires LegalReadFrom(events, x) && LegalReadFrom(events, y) && SameOn(events, x, y)
    ensures Communication(events, x) == Communication(events, y)
    ensures AtomicsAdjacent(events, x) <==> AtomicsAdjacent(events, y)
  {
    forall a, b | a in Writes(events) ensures Before(x, a, b) <==> Before(y, a, b)
                                      ensures ImmediatelyBefore(x, a, b) <==> ImmediatelyBefore(y, a, b)
                                      ensures IsFirst(x, a) <==> IsFirst(y, a) {
    }
    forall a, b | a in events && b in events
      ensures Communicates(events, x, a, b) <==> Communicates(events, y, a, b) {
      forall p ensures ReadFromEdge(events, x, p, a, b) <==> ReadFromEdge(events, y, p, a, b)
               ensures FromReadEdge(events, x, p, a, b) <==> FromReadEdge(events, y, p, a, b) {
        if IsPartOf(events, p) && x.rf[p].Some? { assert x.rf[p].value in Writes(events); }
      }
    }
  }

  lemma WholeReadsAreParts(events: seq<TraceEvent>)
    requires ValidEvents(events) && Uniform(events)
    ensures forall r :: r in Reads(events) ==> IsPartOf(events, WholePart(r))
    ensures forall p :: IsPartOf(events, p) ==> p.event in Reads(events) && p == WholePart(p.event)
  {
    forall r | r in Reads(events) ensures IsPartOf(events, WholePart(r)) { UniformParts(events, WholePart(r)); }
    forall p | IsPartOf(events, p) ensures p.event in Reads(events)
      && p == WholePart(p.event) { UniformParts(events, p); }
  }

  lemma ListedSourcesOf(events: seq<TraceEvent>, x: Execution) returns (sources: seq<Option<TraceEvent>>)
    requires ValidEvents(events) && Uniform(events) && LegalReadFrom(events, x)
    ensures SourcesAreChoices(events, sources)
    ensures forall i :: 0 <= i < |sources| ==>
      WholePart(Reads(events)[i]) in x.rf && x.rf[WholePart(Reads(events)[i])] == sources[i]
  {
    WholeReadsAreParts(events);
    var loads := Reads(events);
    sources := seq(|loads|, i requires 0 <= i < |loads| =>
      assert loads[i] in loads; x.rf[WholePart(loads[i])]);
    forall i | 0 <= i < |loads| ensures sources[i] in Choices(events, loads[i]) {
      assert loads[i] in loads && IsPartOf(events, WholePart(loads[i]));
    }
  }

  lemma ListedAgrees(events: seq<TraceEvent>, x: Execution, sources: seq<Option<TraceEvent>>,
                     orders: map<Location, seq<TraceEvent>>)
    requires Distinct(Reads(events)) && |sources| == |Reads(events)| && OrdersEveryLocation(events, orders)
    requires forall p :: IsPartOf(events, p) ==> p.event in Reads(events) && p == WholePart(p.event)
    requires forall i :: 0 <= i < |sources| ==>
      WholePart(Reads(events)[i]) in x.rf && x.rf[WholePart(Reads(events)[i])] == sources[i]
    requires forall w :: w in Writes(events) ==> w in x.line && orders[LocationOf(w)] == x.line[w]
    ensures SameOn(events, x, Listed(events, sources, orders))
  {
    var y := Listed(events, sources, orders);
    forall p | IsPartOf(events, p) ensures p in x.rf && p in y.rf && x.rf[p] == y.rf[p] {
      var i :| 0 <= i < |Reads(events)| && Reads(events)[i] == p.event;
      assert y.rf[WholePart(Reads(events)[i])] == sources[i];
    }
  }

  /** Every legal execution is listed. */
  lemma LegalIsListed(events: seq<TraceEvent>, x: Execution)
    returns (sources: seq<Option<TraceEvent>>, orders: map<Location, seq<TraceEvent>>)
    requires ValidEvents(events) && Uniform(events) && LegalReadFrom(events, x) && LegalCoherence(events, x)
    ensures SourcesAreChoices(events, sources) && OrdersEveryLocation(events, orders)
    ensures Distinct(Reads(events)) && SameOn(events, x, Listed(events, sources, orders))
    ensures forall l :: l in orders ==> exists w :: w in Writes(events) && LocationOf(w) == l
  {
    ReadsAreDistinct(events);
    WholeReadsAreParts(events);
    sources := ListedSourcesOf(events, x);
    orders := LinesByLocation(events, x);
    LinesByLocationAreOrders(events, x);
    ListedAgrees(events, x, sources, orders);
  }

  lemma LineOfLocation(events: seq<TraceEvent>, x: Execution, w: TraceEvent)
    requires ValidEvents(events) && Uniform(events) && LegalCoherence(events, x) && w in Writes(events)
    ensures IsLocationOrder(events, LocationOf(w), x.line[w])
    ensures forall v :: v in WritesAt(events, LocationOf(w)) ==> x.line[v] == x.line[w]
  {
    UniformClasses(events, w);
    var line := x.line[w];
    assert Arranges(line, OverlapClass(Writes(events), w)) && KeepsThreadOrder(line);
    forall i, j | 0 <= i < j < |line| ensures !line[j].Precedes(line[i]) {
      assert line[i] in line && line[j] in line;
      assert line[i].Overlaps(line[j]);
    }
  }

  function AnyWriteAt(events: seq<TraceEvent>, l: Location): (w: TraceEvent)
    requires WritesAt(events, l) != []
    ensures w in WritesAt(events, l)
  {
    WritesAt(events, l)[0]
  }

  ghost function LinesByLocation(events: seq<TraceEvent>, x: Execution): map<Location, seq<TraceEvent>>
    requires LegalCoherence(events, x)
  {
    map l | l in (set w | w in Writes(events) :: LocationOf(w)) ::
      assert exists w :: w in Writes(events) && LocationOf(w) == l;
      x.line[AnyWriteAt(events, l)]
  }

  lemma LinesByLocationAreOrders(events: seq<TraceEvent>, x: Execution)
    requires ValidEvents(events) && Uniform(events) && LegalCoherence(events, x)
    ensures OrdersEveryLocation(events, LinesByLocation(events, x))
    ensures forall w :: w in Writes(events) ==> LinesByLocation(events, x)[LocationOf(w)] == x.line[w]
  {
    forall w | w in Writes(events)
      ensures LinesByLocation(events, x)[LocationOf(w)] == x.line[w]
      ensures IsLocationOrder(events, LocationOf(w), x.line[w]) {
      LineOfLocation(events, x, w);
    }
  }

  // ----- Neighbouring coherence pairs are enough -----

  ghost predicate ReadCommunicates(events: seq<TraceEvent>, x: Execution, a: TraceEvent, b: TraceEvent) {
    exists p :: ReadFromEdge(events, x, p, a, b) || FromReadEdge(events, x, p, a, b)
  }

  ghost function AdjacentPairs(events: seq<TraceEvent>, x: Execution): set<Edge> {
    set a, b | a in Writes(events) && b in Writes(events) && ImmediatelyBefore(x, a, b) :: (a, b)
  }

  /** The relation the search builds: only neighbours in coherence, all read edges. */
  ghost function NarrowCommunication(events: seq<TraceEvent>, x: Execution): set<Edge> {
    AdjacentPairs(events, x)
    + set a, b | a in events && b in events && ReadCommunicates(events, x, a, b) :: (a, b)
  }

  lemma {:induction false} AdjacentPairsReach(events: seq<TraceEvent>, x: Execution, edges: set<Edge>, a: TraceEvent,
                                              i: nat, j: nat)
    requires LegalCoherence(events, x) && a in Writes(events) && AdjacentPairs(events, x) <= edges
    requires i < j < |x.line[a]|
    ensures Reaches(edges, x.line[a][i], x.line[a][j])
  {
    var line := x.line[a];
    assert line[j - 1] in line && line[j] in line;
    assert line[j - 1] in Writes(events) && line[j] in Writes(events);
    assert x.line[line[j - 1]] == line;
    assert ImmediatelyBefore(x, line[j - 1], line[j]);
    EdgeReaches(edges, line[j - 1], line[j]);
    if i < j - 1 {
      AdjacentPairsReach(events, x, edges, a, i, j - 1);
      ReachesTransitive(edges, line[i], line[j - 1], line[j]);
    }
  }

  /** Listing neighbours only, the cycles stay the same. */
  lemma AdjacentPairsSuffice(events: seq<TraceEvent>, x: Execution, preserved: set<Edge>)
    requires ValidEvents(events) && Uniform(events) && LegalCoherence(events, x)
    ensures Acyclic(preserved + NarrowCommunication(events, x)) <==> Acyclic(preserved + Communication(events, x))
  {
    var narrow, full := preserved + NarrowCommunication(events, x), preserved + Communication(events, x);
    forall a, b | (a, b) in narrow ensures Reaches(full, a, b) {
      if (a, b) in AdjacentPairs(events, x) {
        UniformClasses(events, a);
        assert b in x.line[a] && LocationOf(a) == LocationOf(b);
        assert Before(x, a, b);
      }
      EdgeReaches(full, a, b);
    }
    forall a, b | (a, b) in full ensures Reaches(narrow, a, b) {
      if CoherenceEdge(events, x, a, b) {
        var i, j :| 0 <= i < j < |x.line[a]| && x.line[a][i] == a && x.line[a][j] == b;
        AdjacentPairsReach(events, x, narrow, a, i, j);
      } else {
        EdgeReaches(narrow, a, b);
      }
    }
    if Acyclic(full) { AcyclicThroughInclusion(narrow, full); }
    if Acyclic(narrow) { AcyclicThroughInclusion(full, narrow); }
  }
}

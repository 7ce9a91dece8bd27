/** check_window: enumerate read sources and coherence orders until a target-only execution shows up. */
module WindowChecker {
  import opened Events
  import opened Graphs
  import opened PreservedOrder
  import opened CycleSearch
  import opened ReadParts
  import opened Values
  import opened Executions
  import opened Symbolic
  import opened Enumeration
  import opened UniformWindows

  // ----- Deciding which windows can be enumerated -----

  /** Two writes that overlap without being at the same location. */
  predicate IsMixedPair(a: TraceEvent, b: TraceEvent) {
    a.Overlaps(b) && LocationOf(a) != LocationOf(b)
  }

  predicate IsAtomicPair(a: TraceEvent, b: TraceEvent) {
    IsMixedPair(a, b) && (a.kind.ATOMIC_RMW? || b.kind.ATOMIC_RMW?)
  }

  ghost predicate HasMixedWrites(writes: seq<TraceEvent>) {
    exists a, b :: a in writes && b in writes && IsMixedPair(a, b)
  }

  ghost predicate HasMixedAtomics(writes: seq<TraceEvent>) {
    exists a, b :: a in writes && b in writes && IsAtomicPair(a, b)
  }

  ghost predicate MixesLater(writes: seq<TraceEvent>, i: nat)
    requires i < |writes|
  {
    exists k :: i < k < |writes| && IsMixedPair(writes[i], writes[k])
  }

  ghost predicate MixesAtomicsLater(writes: seq<TraceEvent>, i: nat)
    requires i < |writes|
  {
    exists k :: i < k < |writes| && IsAtomicPair(writes[i], writes[k])
  }

  lemma MixedByPosition(writes: seq<TraceEvent>)
    ensures HasMixedWrites(writes) <==> exists i :: 0 <= i < |writes| && MixesLater(writes, i)
    ensures HasMixedAtomics(writes) <==> exists i :: 0 <= i < |writes| && MixesAtomicsLater(writes, i)
  {
    if a, b :| a in writes && b in writes && IsMixedPair(a, b) {
      var i :| 0 <= i < |writes| && writes[i] == a;
      var k :| 0 <= k < |writes| && writes[k] == b;
      assert if i < k then IsMixedPair(writes[i], writes[k]) else IsMixedPair(writes[k], writes[i]);
      assert MixesLater(writes, if i < k then i else k);
    }
    if a, b :| a in writes && b in writes && IsAtomicPair(a, b) {
      var i :| 0 <= i < |writes| && writes[i] == a;
      var k :| 0 <= k < |writes| && writes[k] == b;
      assert if i < k then IsAtomicPair(writes[i], writes[k]) else IsAtomicPair(writes[k], writes[i]);
      assert MixesAtomicsLater(writes, if i < k then i else k);
    }
  }

  /** Compares one write with the later ones; an atomic ends the search. */
  method MixesWithLater(writes: seq<TraceEvent>, i: nat) returns (mixed: bool, atomic: bool)
    requires i < |writes|
    ensures mixed <==> MixesLater(writes, i)
    ensures atomic <==> MixesAtomicsLater(writes, i)
  {
    mixed, atomic := false, false;
    for k := i + 1 to |writes|
      invariant mixed <==> exists m :: i < m < k && IsMixedPair(writes[i], writes[m])
      invariant forall m :: i < m < k ==> !IsAtomicPair(writes[i], writes[m])
    {
      if IsMixedPair(writes[i], writes[k]) {
        mixed := true;
        if writes[i].kind.ATOMIC_RMW? || writes[k].kind.ATOMIC_RMW? {
          assert IsAtomicPair(writes[i], writes[k]);
          return true, true;
        }
      }
    }
  }

  method MixedWrites(writes: seq<TraceEvent>) returns (mixed: bool, atomic: bool)
    ensures mixed <==> HasMixedWrites(writes)
    ensures atomic <==> HasMixedAtomics(writes)
  {
    mixed, atomic := false, false;
    MixedByPosition(writes);
    for i := 0 to |writes|
      invariant mixed <==> exists j :: 0 <= j < i && MixesLater(writes, j)
      invariant forall j :: 0 <= j < i ==> !MixesAtomicsLater(writes, j)
    {
      var found;
      found, atomic := MixesWithLater(writes, i);
      mixed := mixed || found;
      if atomic {
        return;
      }
    }
    atomic := false;
  }

  /** A write overlaps the read without covering it. */
  predicate IsPartial(read: TraceEvent, writes: seq<TraceEvent>) {
    exists w :: w in writes && w.Overlaps(read) && !Covers(w, read.address, read.EndAddress())
  }

  ghost predicate HasPartialReads(loads: seq<TraceEvent>, writes: seq<TraceEvent>) {
    exists r :: r in loads && IsPartial(r, writes)
  }

  ghost predicate HasPartialAtomics(loads: seq<TraceEvent>, writes: seq<TraceEvent>) {
    exists r :: r in loads && IsPartial(r, writes) && r.kind.ATOMIC_RMW?
  }

  method PartialReads(loads: seq<TraceEvent>, writes: seq<TraceEvent>) returns (partial: bool, atomic: bool)
    ensures partial <==> HasPartialReads(loads, writes)
    ensures atomic <==> HasPartialAtomics(loads, writes)
  {
    partial, atomic := false, false;
    for i := 0 to |loads|
      invariant partial <==> exists k :: 0 <= k < i && IsPartial(loads[k], writes)
      invariant forall k :: 0 <= k < i ==> !(IsPartial(loads[k], writes) && loads[k].kind.ATOMIC_RMW?)
    {
      if IsPartial(loads[i], writes) {
        partial := true;
        if loads[i].kind.ATOMIC_RMW? {
          return true, true;
        }
      }
    }
  }

  /** The windows that can be enumerated are those without mixed writes and partial reads. */
  lemma UniformIffUnmixed(events: seq<TraceEvent>)
    ensures Uniform(events) <==> !HasMixedWrites(Writes(events)) && !HasPartialReads(Reads(events), Writes(events))
    ensures HasMixedAtomics(Writes(events)) ==> HasMixedWrites(Writes(events))
    ensures HasPartialAtomics(Reads(events), Writes(events)) ==> HasPartialReads(Reads(events), Writes(events))
  {
    var writes, loads := Writes(events), Reads(events);
    if !HasMixedWrites(writes) {
      forall a, b | a in writes && b in writes && a.Overlaps(b) ensures LocationOf(a) == LocationOf(b) {
        assert !IsMixedPair(a, b);
      }
    }
    if !HasPartialReads(loads, writes) {
      forall r, w | r in loads && w in writes && w.Overlaps(r) ensures Covers(w, r.address, r.EndAddress()) {
        assert !IsPartial(r, writes);
      }
    }
    if a, b :| a in writes && b in writes && IsAtomicPair(a, b) { assert IsMixedPair(a, b); }
  }

  // ----- One execution -----

  function Neighbours(order: seq<TraceEvent>): seq<Edge> {
    if |order| < 2 then [] else [(order[0], order[1])] + Neighbours(order[1..])
  }

  lemma {:induction false} NeighboursAreAdjacent(order: seq<TraceEvent>, a: TraceEvent, b: TraceEvent)
    ensures (a, b) in Neighbours(order) <==> exists i :: 0 <= i < |order| - 1 && order[i] == a && order[i + 1] == b
  {
    if |order| >= 2 {
      NeighboursAreAdjacent(order[1..], a, b);
      if (a, b) in Neighbours(order[1..]) {
        var i :| 0 <= i < |order[1..]| - 1 && order[1..][i] == a && order[1..][i + 1] == b;
        assert order[i + 1] == a && order[i + 2] == b;
      }
      if i :| 0 <= i < |order| - 1 && order[i] == a && order[i + 1] == b {
        if i > 0 { assert order[1..][i - 1] == a && order[1..][i] == b; }
      }
    }
  }

  ghost predicate IsListed(events: seq<TraceEvent>, sources: seq<Option<TraceEvent>>,
                           orders: map<Location, seq<TraceEvent>>, x: Execution) {
    && ValidEvents(events) && Uniform(events) && Distinct(Reads(events))
    && SourcesAreChoices(events, sources) && OrdersEveryLocation(events, orders)
    && x == Listed(events, sources, orders)
  }

  method CoherencePairs(events: seq<TraceEvent>, locations: seq<Location>, orders: map<Location, seq<TraceEvent>>)
    returns (pairs: seq<Edge>)
    requires forall l :: l in locations ==> l in orders
    ensures forall a, b :: (a, b) in pairs <==> exists l :: l in locations && (a, b) in Neighbours(orders[l])
  {
    pairs := [];
    for i := 0 to |locations|
      invariant forall a, b :: (a, b) in pairs <==> exists l :: l in locations[..i] && (a, b) in Neighbours(orders[l])
    {
      assert locations[..i + 1] == locations[..i] + [locations[i]];
      pairs := pairs + Neighbours(orders[locations[i]]);
    }
    assert locations[..|locations|] == locations;
  }

  lemma PairsAreImmediate(events: seq<TraceEvent>, sources: seq<Option<TraceEvent>>, locations: seq<Location>,
                          orders: map<Location, seq<TraceEvent>>, x: Execution, a: TraceEvent, b: TraceEvent)
    requires IsListed(events, sources, orders, x)
    requires forall l :: l in locations <==> l in orders
    ensures (exists l :: l in locations && (a, b) in Neighbours(orders[l])) <==>
            a in Writes(events) && b in Writes(events) && ImmediatelyBefore(x, a, b)
  {
    if l :| l in locations && (a, b) in Neighbours(orders[l]) {
      NeighboursAreAdjacent(orders[l], a, b);
      assert IsLocationOrder(events, l, orders[l]);
      assert a in orders[l] && b in orders[l];
      assert x.line[a] == orders[l];
    }
    if a in Writes(events) && b in Writes(events) && ImmediatelyBefore(x, a, b) {
      NeighboursAreAdjacent(orders[LocationOf(a)], a, b);
    }
  }

  ghost function EdgesOfRead(events: seq<TraceEvent>, x: Execution, read: TraceEvent): set<Edge> {
    set a, b | a in events && b in events
               && (ReadFromEdge(events, x, WholePart(read), a, b) || FromReadEdge(events, x, WholePart(read), a, b))
      :: (a, b)
  }

  lemma AfterPosition(order: seq<TraceEvent>, w: TraceEvent, b: TraceEvent)
    requires Distinct(order) && w in order
    ensures b in order[Position(order, w) + 1..] <==>
            exists i, j :: 0 <= i < j < |order| && order[i] == w && order[j] == b
  {
    var i, rest := Position(order, w), order[Position(order, w) + 1..];
    if b in rest {
      var j :| 0 <= j < |rest| && rest[j] == b;
      assert order[i + 1 + j] == b;
    }
    if k, j :| 0 <= k < j < |order| && order[k] == w && order[j] == b {
      assert rest[j - (i + 1)] == b;
    }
  }

  lemma LaterInOrder(events: seq<TraceEvent>, sources: seq<Option<TraceEvent>>,
                     orders: map<Location, seq<TraceEvent>>, x: Execution, w: TraceEvent, b: TraceEvent)
    requires IsListed(events, sources, orders, x) && w in Writes(events)
    ensures w in orders[LocationOf(w)]
    ensures b in orders[LocationOf(w)][Position(orders[LocationOf(w)], w) + 1..] <==>
            b in Writes(events) && w.Overlaps(b) && Before(x, w, b)
  {
    var order := orders[LocationOf(w)];
    assert IsLocationOrder(events, LocationOf(w), order) && x.line[w] == order;
    AfterPosition(order, w, b);
    if Before(x, w, b) { assert b in order; }
  }

  /** The writes that overwrite what the read saw. */
  function Overwriters(events: seq<TraceEvent>, orders: map<Location, seq<TraceEvent>>, read: TraceEvent,
                       source: Option<TraceEvent>): set<TraceEvent>
    requires source.Some? ==> LocationOf(source.value) in orders && source.value in orders[LocationOf(source.value)]
  {
    match source
    case None => set b | b in Writes(events) && b.Overlaps(read)
    case Some(w) =>
      var order := orders[LocationOf(w)];
      var later := order[Position(order, w) + 1..];
      set b | b in later && b.Overlaps(read)
  }

  ghost predicate ReadsFrom(events: seq<TraceEvent>, orders: map<Location, seq<TraceEvent>>, x: Execution,
                            read: TraceEvent, source: Option<TraceEvent>) {
    && IsPartOf(events, WholePart(read)) && WholePart(read) in x.rf && x.rf[WholePart(read)] == source
    && (source.Some? ==>
          && source.value in Writes(events)
          && LocationOf(source.value) in orders && source.value in orders[LocationOf(source.value)])
  }

  lemma SourceIsOrdered(events: seq<TraceEvent>, orders: map<Location, seq<TraceEvent>>, read: TraceEvent,
                        w: TraceEvent)
    requires OrdersEveryLocation(events, orders) && Some(w) in Choices(events, read)
    ensures w in Writes(events) && LocationOf(w) in orders && w in orders[LocationOf(w)]
  {
    assert Some(w).value in events && w.IsWrite();
    assert IsLocationOrder(events, LocationOf(w), orders[LocationOf(w)]);
    assert w in WritesAt(events, LocationOf(w));
  }

  lemma ListedSource(events: seq<TraceEvent>, sources: seq<Option<TraceEvent>>,
                     orders: map<Location, seq<TraceEvent>>, i: nat)
    requires Distinct(Reads(events)) && SourcesAreChoices(events, sources) && OrdersEveryLocation(events, orders)
    requires i < |sources|
    requires IsPartOf(events, WholePart(Reads(events)[i]))
    ensures ReadsFrom(events, orders, Listed(events, sources, orders), Reads(events)[i], sources[i])
  {
    ListedReadFrom(events, sources, orders, i);
    assert sources[i] in Choices(events, Reads(events)[i]);
    if sources[i].Some? { SourceIsOrdered(events, orders, Reads(events)[i], sources[i].value); }
  }

  lemma OverwritersAreFromReads(events: seq<TraceEvent>, orders: map<Location, seq<TraceEvent>>, x: Execution,
                                read: TraceEvent, source: Option<TraceEvent>, b: TraceEvent)
    requires ReadsFrom(events, orders, x, read, source)
    requires source.Some? ==>
      var order := orders[LocationOf(source.value)];
      b in order[Position(order, source.value) + 1..] <==>
      b in Writes(events) && source.value.Overlaps(b) && Before(x, source.value, b)
    ensures FromReadEdge(events, x, WholePart(read), read, b) <==>
            b in Overwriters(events, orders, read, source) && b != read
  {
  }

  lemma ReadIsBefore(events: seq<TraceEvent>, sources: seq<Option<TraceEvent>>,
                     orders: map<Location, seq<TraceEvent>>, x: Execution, read: TraceEvent,
                     source: Option<TraceEvent>)
    requires IsListed(events, sources, orders, x) && ReadsFrom(events, orders, x, read, source)
    ensures forall b :: FromReadEdge(events, x, WholePart(read), read, b) <==>
              b in Overwriters(events, orders, read, source) && b != read
  {
    forall b ensures FromReadEdge(events, x, WholePart(read), read, b) <==>
                     b in Overwriters(events, orders, read, source) && b != read {
      if source.Some? { LaterInOrder(events, sources, orders, x, source.value, b); }
      OverwritersAreFromReads(events, orders, x, read, source, b);
    }
  }

  /** The read-from and from-read edges of one read. */
  function RelatedEdges(events: seq<TraceEvent>, orders: map<Location, seq<TraceEvent>>, read: TraceEvent,
                        source: Option<TraceEvent>): set<Edge>
    requires source.Some? ==> LocationOf(source.value) in orders && source.value in orders[LocationOf(source.value)]
  {
    var later := Overwriters(events, orders, read, source);
    (if source.Some? && source.value.thread != read.thread then {(source.value, read)} else {})
    + (set b | b in later && b != read :: (read, b))
  }

  lemma RelatedEdgesOfListed(events: seq<TraceEvent>, sources: seq<Option<TraceEvent>>,
                             orders: map<Location, seq<TraceEvent>>, x: Execution, i: nat)
    requires IsListed(events, sources, orders, x) && i < |sources|
    ensures ReadsFrom(events, orders, x, Reads(events)[i], sources[i])
    ensures RelatedEdges(events, orders, Reads(events)[i], sources[i]) == EdgesOfRead(events, x, Reads(events)[i])
  {
    var read, source := Reads(events)[i], sources[i];
    assert read in Reads(events);
    UniformParts(events, WholePart(read));
    ListedSource(events, sources, orders, i);
    ReadIsBefore(events, sources, orders, x, read, source);
    EdgesOfReadByParts(events, x, read, source, Overwriters(events, orders, read, source));
  }

  lemma EdgesOfReadByParts(events: seq<TraceEvent>, x: Execution, read: TraceEvent, source: Option<TraceEvent>,
                           later: set<TraceEvent>)
    requires IsPartOf(events, WholePart(read)) && WholePart(read) in x.rf && x.rf[WholePart(read)] == source
    requires source.Some? ==> source.value in events
    requires forall b :: FromReadEdge(events, x, WholePart(read), read, b) <==> b in later && b != read
    ensures EdgesOfRead(events, x, read) ==
            (if source.Some? && source.value.thread != read.thread then {(source.value, read)} else {})
            + (set b | b in later && b != read :: (read, b))
  {
    var whole := WholePart(read);
    forall a, b | (a, b) in EdgesOfRead(events, x, read)
      ensures (source == Some(a) && b == read && a.thread != read.thread) || (a == read && b in later && b != read) {
    }
    forall b | b in later && b != read ensures (read, b) in EdgesOfRead(events, x, read) {
      assert FromReadEdge(events, x, whole, read, b);
    }
  }

  ghost predicate SourcesAreOrdered(events: seq<TraceEvent>, sources: seq<Option<TraceEvent>>,
                                    orders: map<Location, seq<TraceEvent>>) {
    && |sources| == |Reads(events)|
    && forall i :: 0 <= i < |sources| && sources[i].Some? ==>
         LocationOf(sources[i].value) in orders && sources[i].value in orders[LocationOf(sources[i].value)]
  }

  method RelateReads(events: seq<TraceEvent>, sources: seq<Option<TraceEvent>>,
                     orders: map<Location, seq<TraceEvent>>) returns (edges: set<Edge>)
    requires SourcesAreOrdered(events, sources, orders)
    ensures forall e :: e in edges <==> exists i :: Related(events, sources, orders, i, e)
  {
    edges := {};
    var loads := Reads(events);
    for i := 0 to |sources|
      invariant forall e :: e in edges <==> exists j :: j < i && Related(events, sources, orders, j, e)
    {
      ghost var before := edges;
      edges := edges + RelatedEdges(events, orders, loads[i], sources[i]);
      assert forall e :: e in edges <==> e in before || Related(events, sources, orders, i, e);
    }
  }

  lemma SameEdges(e: set<Edge>, f: set<Edge>)
    requires forall a, b :: (a, b) in e <==> (a, b) in f
    ensures e == f
  {
    forall p | p in e + f ensures p in e && p in f { assert p == (p.0, p.1); }
  }

  lemma ListedSourcesAreOrdered(events: seq<TraceEvent>, sources: seq<Option<TraceEvent>>,
                                orders: map<Location, seq<TraceEvent>>, x: Execution)
    requires IsListed(events, sources, orders, x)
    ensures SourcesAreOrdered(events, sources, orders)
  {
    forall i | 0 <= i < |sources| && sources[i].Some?
      ensures LocationOf(sources[i].value) in orders && sources[i].value in orders[LocationOf(sources[i].value)] {
      RelatedEdgesOfListed(events, sources, orders, x, i);
    }
  }

  lemma ReaderOfEdge(events: seq<TraceEvent>, x: Execution, a: TraceEvent, b: TraceEvent) returns (i: nat)
    requires ValidEvents(events) && Uniform(events)
    requires a in events && b in events && ReadCommunicates(events, x, a, b)
    ensures i < |Reads(events)| && (a, b) in EdgesOfRead(events, x, Reads(events)[i])
  {
    var p :| ReadFromEdge(events, x, p, a, b) || FromReadEdge(events, x, p, a, b);
    UniformParts(events, p);
    i :| i < |Reads(events)| && Reads(events)[i] == p.event;
  }

  lemma ReadEdgesCommunicate(events: seq<TraceEvent>, x: Execution, read: TraceEvent, a: TraceEvent, b: TraceEvent)
    requires (a, b) in EdgesOfRead(events, x, read)
    ensures a in events && b in events && ReadCommunicates(events, x, a, b)
  {
  }

  ghost predicate Related(events: seq<TraceEvent>, sources: seq<Option<TraceEvent>>,
                          orders: map<Location, seq<TraceEvent>>, i: int, e: Edge)
    requires SourcesAreOrdered(events, sources, orders)
  {
    0 <= i < |sources| && e in RelatedEdges(events, orders, Reads(events)[i], sources[i])
  }

  lemma AllReadEdges(events: seq<TraceEvent>, sources: seq<Option<TraceEvent>>,
                     orders: map<Location, seq<TraceEvent>>, x: Execution, a: TraceEvent, b: TraceEvent)
    requires IsListed(events, sources, orders, x) && SourcesAreOrdered(events, sources, orders)
    ensures (exists i :: Related(events, sources, orders, i, (a, b)))
            <==> a in events && b in events && ReadCommunicates(events, x, a, b)
  {
    if i :| Related(events, sources, orders, i, (a, b)) {
      RelatedEdgesOfListed(events, sources, orders, x, i);
      ReadEdgesCommunicate(events, x, Reads(events)[i], a, b);
    } else if a in events && b in events && ReadCommunicates(events, x, a, b) {
      var i := ReaderOfEdge(events, x, a, b);
      RelatedEdgesOfListed(events, sources, orders, x, i);
      assert Related(events, sources, orders, i, (a, b));
    }
  }

  method CommunicationRelations(events: seq<TraceEvent>, sources: seq<Option<TraceEvent>>, locations: seq<Location>,
                                orders: map<Location, seq<TraceEvent>>, ghost x: Execution)
    returns (edges: set<Edge>, pairs: seq<Edge>)
    requires IsListed(events, sources, orders, x) && forall l :: l in locations <==> l in orders
    ensures edges == NarrowCommunication(events, x)
    ensures forall a, b :: (a, b) in pairs <==> (a, b) in AdjacentPairs(events, x)
  {
    pairs := CoherencePairs(events, locations, orders);
    forall a, b ensures (a, b) in pairs <==> (a, b) in AdjacentPairs(events, x) {
      PairsAreImmediate(events, sources, locations, orders, x, a, b);
    }
    var coherence := set e | e in pairs;
    ListedSourcesAreOrdered(events, sources, orders, x);
    var readEdges := RelateReads(events, sources, orders);
    forall a, b ensures (a, b) in readEdges <==> a in events && b in events && ReadCommunicates(events, x, a, b) {
      AllReadEdges(events, sources, orders, x, a, b);
    }
    edges := coherence + readEdges;
    SameEdges(edges, NarrowCommunication(events, x));
  }

  // ----- Atomicity -----

  ghost predicate AtomicReadOk(x: Execution, read: TraceEvent, source: Option<TraceEvent>) {
    read.kind.ATOMIC_RMW? ==> match source case None => IsFirst(x, read) case Some(w) => ImmediatelyBefore(x, w, read)
  }

  /** The read parts of the window are its whole reads, and x gives them the listed sources. */
  ghost predicate ReadsListed(events: seq<TraceEvent>, sources: seq<Option<TraceEvent>>, x: Execution) {
    && |sources| == |Reads(events)|
    && (forall i :: 0 <= i < |sources| ==>
          var p := WholePart(Reads(events)[i]);
          IsPartOf(events, p) && p in x.rf && x.rf[p] == sources[i])
    && (forall p :: IsPartOf(events, p) ==> exists i :: 0 <= i < |sources| && p == WholePart(Reads(events)[i]))
  }

  lemma PartsAreWholeReads(events: seq<TraceEvent>)
    requires ValidEvents(events) && Uniform(events)
    ensures forall i :: 0 <= i < |Reads(events)| ==> IsPartOf(events, WholePart(Reads(events)[i]))
    ensures forall p :: IsPartOf(events, p) ==> exists i :: 0 <= i < |Reads(events)| && p == WholePart(Reads(events)[i])
  {
    forall i | 0 <= i < |Reads(events)| ensures IsPartOf(events, WholePart(Reads(events)[i])) {
      assert Reads(events)[i] in Reads(events);
      UniformParts(events, WholePart(Reads(events)[i]));
    }
    forall p | IsPartOf(events, p) ensures exists i :: 0 <= i < |Reads(events)| && p == WholePart(Reads(events)[i]) {
      UniformParts(events, p);
      var i :| 0 <= i < |Reads(events)| && Reads(events)[i] == p.event;
    }
  }

  lemma ListedReadFrom(events: seq<TraceEvent>, sources: seq<Option<TraceEvent>>,
                       orders: map<Location, seq<TraceEvent>>, i: nat)
    requires Distinct(Reads(events)) && |sources| == |Reads(events)| && OrdersEveryLocation(events, orders)
    requires i < |sources|
    ensures WholePart(Reads(events)[i]) in Listed(events, sources, orders).rf
    ensures Listed(events, sources, orders).rf[WholePart(Reads(events)[i])] == sources[i]
  {
  }

  lemma ListedReads(events: seq<TraceEvent>, sources: seq<Option<TraceEvent>>, orders: map<Location, seq<TraceEvent>>,
                    x: Execution)
    requires IsListed(events, sources, orders, x)
    ensures ReadsListed(events, sources, x)
  {
    PartsAreWholeReads(events);
    forall i | 0 <= i < |sources|
      ensures WholePart(Reads(events)[i]) in x.rf && x.rf[WholePart(Reads(events)[i])] == sources[i] {
      ListedReadFrom(events, sources, orders, i);
    }
  }

  lemma AtomicsByRead(events: seq<TraceEvent>, sources: seq<Option<TraceEvent>>, x: Execution)
    requires ReadsListed(events, sources, x)
    ensures AtomicsAdjacent(events, x) <==>
            forall i :: 0 <= i < |sources| ==> AtomicReadOk(x, Reads(events)[i], sources[i])
  {
    if forall i :: 0 <= i < |sources| ==> AtomicReadOk(x, Reads(events)[i], sources[i]) {
      forall p | IsPartOf(events, p) && p.event.kind.ATOMIC_RMW? && p in x.rf
        ensures AtomicReadOk(x, p.event, x.rf[p]) {
        var i :| 0 <= i < |sources| && p == WholePart(Reads(events)[i]);
      }
    }
    if AtomicsAdjacent(events, x) {
      forall i | 0 <= i < |sources| ensures AtomicReadOk(x, Reads(events)[i], sources[i]) {
        var p := WholePart(Reads(events)[i]);
        assert IsPartOf(events, p) && p in x.rf && x.rf[p] == sources[i];
      }
    }
  }

  /** In a coherence order a write is first exactly when no neighbour precedes it. */
  lemma FirstHasNoPredecessor(events: seq<TraceEvent>, x: Execution, r: TraceEvent)
    requires LegalCoherence(events, x) && r in Writes(events)
    ensures IsFirst(x, r) <==> forall w :: (w, r) !in AdjacentPairs(events, x)
    ensures forall v, w :: (v, r) in AdjacentPairs(events, x) && (w, r) in AdjacentPairs(events, x) ==> v == w
  {
    var line := x.line[r];
    assert r in OverlapClass(Writes(events), r);
    var i :| 0 <= i < |line| && line[i] == r;
    forall w | (w, r) in AdjacentPairs(events, x) ensures i > 0 && w == line[i - 1] {
      var k :| 0 <= k < |x.line[w]| - 1 && x.line[w][k] == w && x.line[w][k + 1] == r;
      assert r in x.line[w];
      assert x.line[w] == line;
    }
    if i > 0 {
      assert line[i - 1] in line && x.line[line[i - 1]] == line;
      assert line[i - 1] in OverlapClass(Writes(events), r);
      assert ImmediatelyBefore(x, line[i - 1], r);
    }
  }

  method Predecessors(pairs: seq<Edge>) returns (predecessor: map<TraceEvent, TraceEvent>)
    ensures forall r :: r in predecessor ==> (predecessor[r], r) in pairs
    ensures forall k :: 0 <= k < |pairs| ==> pairs[k].1 in predecessor
  {
    predecessor := map[];
    for i := 0 to |pairs|
      invariant forall r :: r in predecessor ==> (predecessor[r], r) in pairs
      invariant forall k :: 0 <= k < i ==> pairs[k].1 in predecessor
    {
      assert pairs[i] in pairs && pairs[i] == (pairs[i].0, pairs[i].1);
      predecessor := predecessor[pairs[i].1 := pairs[i].0];
    }
  }

  /** The atomic read takes its value from the write recorded right before its own. */
  predicate FromPredecessor(predecessor: map<TraceEvent, TraceEvent>, read: TraceEvent, source: Option<TraceEvent>) {
    read.kind.ATOMIC_RMW? ==> (if read in predecessor then Some(predecessor[read]) else None) == source
  }

  method AllFromPredecessor(loads: seq<TraceEvent>, sources: seq<Option<TraceEvent>>,
                            predecessor: map<TraceEvent, TraceEvent>) returns (ok: bool)
    requires |loads| == |sources|
    ensures ok <==> forall i :: 0 <= i < |loads| ==> FromPredecessor(predecessor, loads[i], sources[i])
  {
    for i := 0 to |loads|
      invariant forall j :: 0 <= j < i ==> FromPredecessor(predecessor, loads[j], sources[j])
    {
      var read := loads[i];
      if read.kind.ATOMIC_RMW? {
        var found := if read in predecessor then Some(predecessor[read]) else None;
        if found != sources[i] {
          return false;
        }
      }
    }
    return true;
  }

  method AtomicReadFromValid(events: seq<TraceEvent>, sources: seq<Option<TraceEvent>>, pairs: seq<Edge>,
                             ghost x: Execution) returns (ok: bool)
    requires ReadsListed(events, sources, x) && LegalReadFrom(events, x) && LegalCoherence(events, x)
    requires forall a, b :: (a, b) in pairs <==> (a, b) in AdjacentPairs(events, x)
    ensures ok <==> AtomicsAdjacent(events, x)
  {
    AtomicsByRead(events, sources, x);
    var predecessor := Predecessors(pairs);
    ok := AllFromPredecessor(Reads(events), sources, predecessor);
    forall i | 0 <= i < |sources|
      ensures FromPredecessor(predecessor, Reads(events)[i], sources[i]) <==>
              AtomicReadOk(x, Reads(events)[i], sources[i]) {
      if Reads(events)[i].kind.ATOMIC_RMW? { PredecessorDecides(events, sources, pairs, x, i, predecessor); }
    }
  }

  lemma PredecessorDecides(events: seq<TraceEvent>, sources: seq<Option<TraceEvent>>, pairs: seq<Edge>, x: Execution,
                           i: nat, predecessor: map<TraceEvent, TraceEvent>)
    requires i < |sources| && ReadsListed(events, sources, x) && LegalReadFrom(events, x) && LegalCoherence(events, x)
    requires forall a, b :: (a, b) in pairs <==> (a, b) in AdjacentPairs(events, x)
    requires forall r :: r in predecessor ==> (predecessor[r], r) in pairs
    requires forall k :: 0 <= k < |pairs| ==> pairs[k].1 in predecessor
    requires Reads(events)[i].kind.ATOMIC_RMW?
    ensures var read := Reads(events)[i];
      AtomicReadOk(x, read, sources[i]) <==>
      (if read in predecessor then Some(predecessor[read]) else None) == sources[i]
  {
    var read := Reads(events)[i];
    assert read in Reads(events) && read in Writes(events);
    FirstHasNoPredecessor(events, x, read);
    forall w ensures (w, read) in AdjacentPairs(events, x) ==> read in predecessor && predecessor[read] == w {
      if (w, read) in AdjacentPairs(events, x) {
        var k :| 0 <= k < |pairs| && pairs[k] == (w, read);
        assert (predecessor[read], read) in pairs;
      }
    }
    if read in predecessor { assert (predecessor[read], read) in AdjacentPairs(events, x); }
    if sources[i].Some? {
      var p := WholePart(read);
      assert IsPartOf(events, p) && x.rf[p] == sources[i];
      assert sources[i].value in Writes(events);
    }
  }

  // ----- Coherence choices per location -----

  predicate HasRivals(events: seq<TraceEvent>, l: Location) { |WritesAt(events, l)| > 1 }

  function Contested(events: seq<TraceEvent>, locations: seq<Location>): seq<Location> {
    if locations == [] then []
    else
      var last := locations[|locations| - 1];
      Contested(events, locations[..|locations| - 1]) + (if HasRivals(events, last) then [last] else [])
  }

  lemma {:induction false} ContestedMembers(events: seq<TraceEvent>, locations: seq<Location>)
    ensures forall l :: l in Contested(events, locations) <==> l in locations && HasRivals(events, l)
  {
    if locations != [] {
      ContestedMembers(events, locations[..|locations| - 1]);
      assert locations == locations[..|locations| - 1] + [locations[|locations| - 1]];
    }
  }

  /** The per-location orders that one choice of contested orders stands for. */
  ghost predicate Realizes(events: seq<TraceEvent>, locations: seq<Location>, selected: seq<seq<TraceEvent>>,
                           orders: map<Location, seq<TraceEvent>>) {
    var contested := Contested(events, locations);
    && |selected| == |contested|
    && (forall l :: l in orders <==> l in locations)
    && (forall k :: 0 <= k < |contested| ==> contested[k] in orders && orders[contested[k]] == selected[k])
    && (forall l :: l in locations && !HasRivals(events, l) ==> l in orders && orders[l] == WritesAt(events, l))
  }

  lemma {:induction false} ContestedOfLonger(events: seq<TraceEvent>, before: seq<Location>, after: seq<Location>,
                                             l: Location)
    requires after == before + [l] && l !in before
    ensures Contested(events, after) == Contested(events, before) + (if HasRivals(events, l) then [l] else [])
    ensures forall k :: 0 <= k < |Contested(events, before)| ==> Contested(events, before)[k] != l
  {
    ContestedMembers(events, before);
    assert after[..|after| - 1] == before;
    forall k | 0 <= k < |Contested(events, before)| ensures Contested(events, before)[k] != l {
      assert Contested(events, before)[k] in Contested(events, before);
    }
  }

  lemma OrderNext(events: seq<TraceEvent>, locations: seq<Location>, i: nat, selected: seq<seq<TraceEvent>>, next: nat,
                  orders: map<Location, seq<TraceEvent>>)
    requires Distinct(locations) && |selected| == |Contested(events, locations)| && i < |locations|
    requires next <= |selected| && Realizes(events, locations[..i], selected[..next], orders)
    ensures HasRivals(events, locations[i]) ==>
      && next < |selected|
      && Realizes(events, locations[..i + 1], selected[..next + 1], orders[locations[i] := selected[next]])
    ensures !HasRivals(events, locations[i]) ==>
      Realizes(events, locations[..i + 1], selected[..next], orders[locations[i] := WritesAt(events, locations[i])])
  {
    NextContested(events, locations, i);
    if HasRivals(events, locations[i]) {
      assert selected[..next + 1][..next] == selected[..next];
      ContestedStep(events, locations[..i], locations[..i + 1], locations[i], selected[..next], selected[..next + 1],
                    orders);
    } else {
      UncontestedStep(events, locations[..i], locations[..i + 1], locations[i], selected[..next], orders);
    }
  }

  lemma WholeIsPrefix<T>(s: seq<T>)
    ensures s[..|s|] == s
  {
  }

  method OrderByLocation(events: seq<TraceEvent>, locations: seq<Location>, selected: seq<seq<TraceEvent>>)
    returns (orders: map<Location, seq<TraceEvent>>)
    requires Distinct(locations) && |selected| == |Contested(events, locations)|
    ensures Realizes(events, locations, selected, orders)
  {
    orders := map[];
    var next := 0;
    for i := 0 to |locations|
      invariant next <= |selected| && Realizes(events, locations[..i], selected[..next], orders)
    {
      OrderNext(events, locations, i, selected, next, orders);
      if HasRivals(events, locations[i]) {
        orders := orders[locations[i] := selected[next]];
        next := next + 1;
      } else {
        orders := orders[locations[i] := WritesAt(events, locations[i])];
      }
    }
    WholeIsPrefix(locations);
    assert selected[..next] == selected;
  }

  lemma ContestedStep(events: seq<TraceEvent>, before: seq<Location>, after: seq<Location>, l: Location,
                      selected: seq<seq<TraceEvent>>, more: seq<seq<TraceEvent>>,
                      orders: map<Location, seq<TraceEvent>>)
    requires Realizes(events, before, selected, orders) && after == before + [l] && l !in before
    requires HasRivals(events, l) && |more| == |selected| + 1 && more[..|selected|] == selected
    ensures Realizes(events, after, more, orders[l := more[|selected|]])
  {
    ContestedOfLonger(events, before, after, l);
    forall k | 0 <= k < |selected| ensures more[k] == selected[k] { assert more[k] == more[..|selected|][k]; }
  }

  lemma UncontestedStep(events: seq<TraceEvent>, before: seq<Location>, after: seq<Location>, l: Location,
                        selected: seq<seq<TraceEvent>>, orders: map<Location, seq<TraceEvent>>)
    requires Realizes(events, before, selected, orders) && after == before + [l] && l !in before
    requires !HasRivals(events, l)
    ensures Realizes(events, after, selected, orders[l := WritesAt(events, l)])
  {
    ContestedOfLonger(events, before, after, l);
  }

  lemma NextContested(events: seq<TraceEvent>, locations: seq<Location>, i: nat)
    requires Distinct(locations) && i < |locations|
    ensures locations[..i + 1] == locations[..i] + [locations[i]] && locations[i] !in locations[..i]
    ensures HasRivals(events, locations[i]) ==>
              |Contested(events, locations[..i])| < |Contested(events, locations)|
  {
    assert locations[..i + 1][..i] == locations[..i];
    ContestedGrows(events, locations, i + 1);
  }

  lemma {:induction false} ContestedGrows(events: seq<TraceEvent>, locations: seq<Location>, i: nat)
    requires i <= |locations|
    ensures |Contested(events, locations[..i])| <= |Contested(events, locations)|
    decreases |locations| - i
  {
    if i < |locations| {
      ContestedGrows(events, locations, i + 1);
      assert locations[..i + 1][..i] == locations[..i];
    } else {
      assert locations[..i] == locations;
    }
  }

  ghost predicate ListsLocations(events: seq<TraceEvent>, locations: seq<Location>) {
    Distinct(locations) && forall l :: l in locations <==> exists w :: w in Writes(events) && LocationOf(w) == l
  }

  method WriteLocations(events: seq<TraceEvent>) returns (locations: seq<Location>)
    ensures ListsLocations(events, locations)
  {
    locations := [];
    var writes := Writes(events);
    for i := 0 to |writes|
      invariant Distinct(locations)
      invariant forall l :: l in locations <==> exists k :: 0 <= k < i && LocationOf(writes[k]) == l
    {
      if LocationOf(writes[i]) !in locations { locations := locations + [LocationOf(writes[i])]; }
    }
    forall l ensures l in locations <==> exists w :: w in Writes(events) && LocationOf(w) == l {
      if w :| w in writes && LocationOf(w) == l {
        var k :| 0 <= k < |writes| && writes[k] == w;
        assert LocationOf(writes[k]) == l;
      }
    }
  }

  // ----- The search -----

  datatype Reason = MixedAtomicCoherence | MixedAtomicReadFrom | TimeLimit

  datatype WindowResult =
    | Unknown(reason: Reason)
    | NeedsSolver
    | Safe
    | Candidate(sources: seq<Option<TraceEvent>>, orders: map<Location, seq<TraceEvent>>,
                cycle: seq<TraceEvent>, validated: bool)

  /** A communicated cycle that only the target tolerates, or nothing. */
  method CheckExecution(events: seq<TraceEvent>, sources: seq<Option<TraceEvent>>, locations: seq<Location>,
                        orders: map<Location, seq<TraceEvent>>, sourcePpo: set<Edge>, targetPpo: set<Edge>,
                        ghost x: Execution) returns (cycle: seq<TraceEvent>)
    requires IsListed(events, sources, orders, x) && forall l :: l in locations <==> l in orders
    requires sourcePpo == SparseOrder(events) && targetPpo == RvwmoOrder(events)
    ensures cycle != [] <==> TargetOnly(events, x)
    ensures cycle != [] ==> IsCycle(sourcePpo + NarrowCommunication(events, x), cycle)
  {
    ListedIsLegal(events, sources, orders);
    ListedReads(events, sources, orders, x);
    var com, pairs := CommunicationRelations(events, sources, locations, orders, x);
    var atomic := AtomicReadFromValid(events, sources, pairs, x);
    if !atomic { return []; }
    AdjacentPairsSuffice(events, x, targetPpo);
    AdjacentPairsSuffice(events, x, sourcePpo);
    var targetCycle := FindCycle(targetPpo + com);
    if targetCycle != [] { return []; }
    cycle := FindCycle(sourcePpo + com);
  }

  /** No execution that this pair of choices stands for is target only. */
  ghost predicate Refuted(events: seq<TraceEvent>, locations: seq<Location>, sources: seq<Option<TraceEvent>>,
                          selected: seq<seq<TraceEvent>>) {
    forall orders, x :: Realizes(events, locations, selected, orders) && IsListed(events, sources, orders, x) ==>
      !TargetOnly(events, x)
  }

  function AllChoices(events: seq<TraceEvent>): seq<seq<Option<TraceEvent>>> {
    seq(|Reads(events)|, i requires 0 <= i < |Reads(events)| => Choices(events, Reads(events)[i]))
  }

  function AllOrders(events: seq<TraceEvent>, contested: seq<Location>): seq<seq<seq<TraceEvent>>>
    requires Distinct(events)
  {
    seq(|contested|, k requires 0 <= k < |contested| => ValidCoherenceOrders(WritesAt(events, contested[k])))
  }

  lemma ChosenSources(events: seq<TraceEvent>, sources: seq<Option<TraceEvent>>)
    ensures sources in Product(AllChoices(events)) <==> SourcesAreChoices(events, sources)
  {
    ProductMembers(AllChoices(events), sources);
  }

  lemma ChosenOrders(events: seq<TraceEvent>, locations: seq<Location>, selected: seq<seq<TraceEvent>>,
                     orders: map<Location, seq<TraceEvent>>)
    requires ValidEvents(events) && ListsLocations(events, locations)
    requires Realizes(events, locations, selected, orders)
    requires selected in Product(AllOrders(events, Contested(events, locations)))
    ensures OrdersEveryLocation(events, orders)
  {
    var contested := Contested(events, locations);
    ContestedMembers(events, locations);
    ProductMembers(AllOrders(events, contested), selected);
    forall l | l in orders ensures IsLocationOrder(events, l, orders[l]) {
      if HasRivals(events, l) {
        var k :| 0 <= k < |contested| && contested[k] == l;
        assert selected[k] in AllOrders(events, contested)[k];
        ValidOrdersAreLinearExtensions(WritesAt(events, l), orders[l]);
      }
    }
    forall w | w in Writes(events) ensures LocationOf(w) in orders {
      assert LocationOf(w) in locations;
    }
  }

  lemma SingleOrder(writes: seq<TraceEvent>, order: seq<TraceEvent>)
    requires Distinct(writes) && Distinct(order) && SameMembers(order, writes) && |writes| <= 1
    ensures order == writes
  {
    SameLength(order, writes);
    if writes != [] { assert order[0] in order; }
  }

  lemma SelectOrders(events: seq<TraceEvent>, locations: seq<Location>, orders: map<Location, seq<TraceEvent>>)
    returns (selected: seq<seq<TraceEvent>>)
    requires ValidEvents(events) && ListsLocations(events, locations) && OrdersEveryLocation(events, orders)
    requires forall l :: l in orders ==> l in locations
    ensures Realizes(events, locations, selected, orders)
    ensures selected in Product(AllOrders(events, Contested(events, locations)))
  {
    var contested := Contested(events, locations);
    ContestedMembers(events, locations);
    forall l | l in locations ensures l in orders && IsLocationOrder(events, l, orders[l]) {
      var w :| w in Writes(events) && LocationOf(w) == l;
    }
    selected := seq(|contested|, k requires 0 <= k < |contested| =>
      assert contested[k] in contested; orders[contested[k]]);
    forall l | l in locations && !HasRivals(events, l) ensures orders[l] == WritesAt(events, l) {
      SingleOrder(WritesAt(events, l), orders[l]);
    }
    forall k | 0 <= k < |contested| ensures selected[k] in AllOrders(events, contested)[k] {
      assert contested[k] in contested;
      ValidOrdersAreLinearExtensions(WritesAt(events, contested[k]), orders[contested[k]]);
    }
    ProductMembers(AllOrders(events, contested), selected);
  }

  /** Refuting the listed form of an execution refutes the execution. */
  lemma RefutedListed(events: seq<TraceEvent>, locations: seq<Location>, sources: seq<Option<TraceEvent>>,
                      selected: seq<seq<TraceEvent>>, orders: map<Location, seq<TraceEvent>>, x: Execution,
                      y: Execution)
    requires Realizes(events, locations, selected, orders) && IsListed(events, sources, orders, y)
    requires Refuted(events, locations, sources, selected)
    requires LegalReadFrom(events, x) && LegalCoherence(events, x) && SameOn(events, x, y)
    ensures !TargetOnly(events, x)
  {
    ListedIsLegal(events, sources, orders);
    SameOnIsEnough(events, x, y);
    assert !TargetOnly(events, y);
  }

  lemma EveryExecutionIsTried(events: seq<TraceEvent>, locations: seq<Location>, x: Execution)
    returns (sources: seq<Option<TraceEvent>>, selected: seq<seq<TraceEvent>>)
    requires ValidEvents(events) && Uniform(events) && ListsLocations(events, locations)
    requires LegalReadFrom(events, x) && LegalCoherence(events, x)
    ensures sources in Product(AllChoices(events))
    ensures selected in Product(AllOrders(events, Contested(events, locations)))
    ensures Refuted(events, locations, sources, selected) ==> !TargetOnly(events, x)
  {
    var orders;
    sources, orders := LegalIsListed(events, x);
    ChosenSources(events, sources);
    selected := SelectOrders(events, locations, orders);
    if Refuted(events, locations, sources, selected) {
      RefutedListed(events, locations, sources, selected, orders, x, Listed(events, sources, orders));
    }
  }

  /** Refuting every pair of choices refutes every execution. */
  lemma AllRefutedIsSafe(events: seq<TraceEvent>, locations: seq<Location>, choices: seq<seq<Option<TraceEvent>>>)
    requires ValidEvents(events) && Uniform(events) && ListsLocations(events, locations)
    requires choices == Product(AllChoices(events)) && AllRefuted(events, locations, choices, |choices|)
    ensures forall x :: !TargetOnly(events, x)
  {
    forall x ensures !TargetOnly(events, x) {
      if LegalReadFrom(events, x) && LegalCoherence(events, x) {
        var sources, selected := EveryExecutionIsTried(events, locations, x);
        var j :| 0 <= j < |choices| && choices[j] == sources;
      }
    }
  }

  /** What a reported candidate amounts to: a target-only execution and its source cycle. It is validated exactly if
      the control flow is closed and the chosen sources explain every recorded value. */
  ghost predicate IsWitness(events: seq<TraceEvent>, controlFlowClosed: bool, result: WindowResult)
    requires result.Candidate?
  {
    && Distinct(Reads(events)) && SourcesAreChoices(events, result.sources)
    && OrdersEveryLocation(events, result.orders)
    && (var x := Listed(events, result.sources, result.orders);
        && TargetOnly(events, x)
        && IsCycle(SparseOrder(events) + NarrowCommunication(events, x), result.cycle))
    && (result.validated
        <==> controlFlowClosed
             && forall i :: 0 <= i < |result.sources| ==> SourceExplains(Reads(events)[i], result.sources[i]))
  }

  lemma RealizedOrdersAreUnique(events: seq<TraceEvent>, locations: seq<Location>, selected: seq<seq<TraceEvent>>,
                                orders: map<Location, seq<TraceEvent>>, other: map<Location, seq<TraceEvent>>)
    requires Realizes(events, locations, selected, orders) && Realizes(events, locations, selected, other)
    ensures orders == other
  {
    ContestedMembers(events, locations);
    forall l | l in orders ensures orders[l] == other[l] {
      if HasRivals(events, l) {
        var k :| 0 <= k < |Contested(events, locations)| && Contested(events, locations)[k] == l;
      }
    }
  }

  lemma RefutedByOne(events: seq<TraceEvent>, locations: seq<Location>, sources: seq<Option<TraceEvent>>,
                     selected: seq<seq<TraceEvent>>, orders: map<Location, seq<TraceEvent>>, x: Execution)
    requires Realizes(events, locations, selected, orders) && IsListed(events, sources, orders, x)
    requires !TargetOnly(events, x)
    ensures Refuted(events, locations, sources, selected)
  {
    forall other, y | Realizes(events, locations, selected, other) && IsListed(events, sources, other, y)
      ensures y == x {
      RealizedOrdersAreUnique(events, locations, selected, orders, other);
    }
  }

  method Validate(events: seq<TraceEvent>, sources: seq<Option<TraceEvent>>) returns (validated: bool)
    requires SourcesAreChoices(events, sources)
    ensures validated <==> forall i :: 0 <= i < |sources| ==> SourceExplains(Reads(events)[i], sources[i])
  {
    forall i | 0 <= i < |sources| && sources[i].Some? ensures sources[i].value.address <= Reads(events)[i].address {
      assert sources[i] in Choices(events, Reads(events)[i]);
    }
    validated := ValuesMatch(Reads(events), sources);
  }

  method TryExecution(events: seq<TraceEvent>, locations: seq<Location>, sources: seq<Option<TraceEvent>>,
                      selected: seq<seq<TraceEvent>>, sourcePpo: set<Edge>, targetPpo: set<Edge>,
                      controlFlowClosed: bool) returns (result: WindowResult)
    requires ValidEvents(events) && Uniform(events) && ListsLocations(events, locations)
    requires sources in Product(AllChoices(events))
    requires selected in Product(AllOrders(events, Contested(events, locations)))
    requires sourcePpo == SparseOrder(events) && targetPpo == RvwmoOrder(events)
    ensures result.Candidate? || (result.Safe? && Refuted(events, locations, sources, selected))
    ensures result.Candidate? ==> IsWitness(events, controlFlowClosed, result)
  {
    ReadsAreDistinct(events);
    ChosenSources(events, sources);
    ProductMembers(AllOrders(events, Contested(events, locations)), selected);
    var orders := OrderByLocation(events, locations, selected);
    ChosenOrders(events, locations, selected, orders);
    ghost var x := Listed(events, sources, orders);
    assert IsListed(events, sources, orders, x);
    var cycle := CheckExecution(events, sources, locations, orders, sourcePpo, targetPpo, x);
    if cycle == [] {
      RefutedByOne(events, locations, sources, selected, orders, x);
      return Safe;
    }
    var validated := Validate(events, sources);
    result := Candidate(sources, orders, cycle, controlFlowClosed && validated);
  }

  ghost predicate VariantsRefuted(events: seq<TraceEvent>, locations: seq<Location>, sources: seq<Option<TraceEvent>>,
                                  variants: seq<seq<seq<TraceEvent>>>) {
    forall k :: 0 <= k < |variants| ==> Refuted(events, locations, sources, variants[k])
  }

  lemma OneMoreVariant(events: seq<TraceEvent>, locations: seq<Location>, sources: seq<Option<TraceEvent>>,
                       variants: seq<seq<seq<TraceEvent>>>, n: nat)
    requires n < |variants| && VariantsRefuted(events, locations, sources, variants[..n])
    requires Refuted(events, locations, sources, variants[n])
    ensures VariantsRefuted(events, locations, sources, variants[..n + 1])
  {
    assert variants[..n + 1] == variants[..n] + [variants[n]];
  }

  /** The clock has run out at the n-th look at it, counting from zero. */
  predicate IsExpired(ticks: Option<nat>, n: int) {
    ticks.Some? && n >= ticks.value
  }

  /** How the search stands or ends after so many executions were refuted. The clock is looked at before each
      execution, and the budget after counting it. */
  ghost predicate EndsAfter(tried: nat, result: WindowResult, examined: nat, maxExecutions: nat, ticks: Option<nat>) {
    && tried <= maxExecutions && (ticks.Some? ==> tried <= ticks.value)
    && match result
       case Safe => examined == tried
       case Candidate(_, _, _, _) => examined == tried + 1 <= maxExecutions && (ticks.Some? ==> tried < ticks.value)
       case NeedsSolver => examined == tried + 1 == maxExecutions + 1 && (ticks.Some? ==> tried < ticks.value)
       case Unknown(reason) => reason == TimeLimit && ticks.Some? && examined == tried == ticks.value
  }

  /** Tries one choice of sources with every coherence choice, up to the k-th. */
  method TryVariants(events: seq<TraceEvent>, locations: seq<Location>, sources: seq<Option<TraceEvent>>,
                     variants: seq<seq<seq<TraceEvent>>>, sourcePpo: set<Edge>, targetPpo: set<Edge>, before: nat,
                     maxExecutions: nat, ticks: Option<nat>, controlFlowClosed: bool)
    returns (result: WindowResult, examined: nat, ghost k: nat)
    requires ValidEvents(events) && Uniform(events) && ListsLocations(events, locations)
    requires sources in Product(AllChoices(events)) && EndsAfter(before, Safe, before, maxExecutions, ticks)
    requires forall k :: 0 <= k < |variants| ==> variants[k] in Product(AllOrders(events, Contested(events, locations)))
    requires sourcePpo == SparseOrder(events) && targetPpo == RvwmoOrder(events)
    ensures k <= |variants| && VariantsRefuted(events, locations, sources, variants[..k])
    ensures EndsAfter(before + k, result, examined, maxExecutions, ticks) && (result.Safe? <==> k == |variants|)
    ensures result.Candidate? ==> IsWitness(events, controlFlowClosed, result)
  {
    examined, k := before, |variants|;
    for j := 0 to |variants|
      invariant examined == before + j && EndsAfter(examined, Safe, examined, maxExecutions, ticks)
      invariant VariantsRefuted(events, locations, sources, variants[..j])
    {
      if IsExpired(ticks, examined) { return Unknown(TimeLimit), examined, j; }
      examined := examined + 1;
      if examined > maxExecutions { return NeedsSolver, examined, j; }
      result := TryExecution(events, locations, sources, variants[j], sourcePpo, targetPpo, controlFlowClosed);
      if result.Candidate? { return result, examined, j; }
      OneMoreVariant(events, locations, sources, variants, j);
    }
    assert variants[..|variants|] == variants;
    result := Safe;
  }

  ghost predicate AllRefuted(events: seq<TraceEvent>, locations: seq<Location>, choices: seq<seq<Option<TraceEvent>>>,
                             n: nat)
    requires ValidEvents(events) && n <= |choices|
  {
    forall j, selected :: 0 <= j < n && selected in Product(AllOrders(events, Contested(events, locations))) ==>
      Refuted(events, locations, choices[j], selected)
  }

  lemma OneMoreRefuted(events: seq<TraceEvent>, locations: seq<Location>, choices: seq<seq<Option<TraceEvent>>>,
                       variants: seq<seq<seq<TraceEvent>>>, n: nat)
    requires ValidEvents(events) && n < |choices| && AllRefuted(events, locations, choices, n)
    requires variants == Product(AllOrders(events, Contested(events, locations)))
    requires VariantsRefuted(events, locations, choices[n], variants)
    ensures AllRefuted(events, locations, choices, n + 1)
  {
  }

  /** n times v, added up. */
  function Times(n: nat, v: nat): nat {
    if n == 0 then 0 else v + Times(n - 1, v)
  }

  lemma {:induction false} TimesIsProduct(n: nat, v: nat)
    ensures Times(n, v) == n * v
  {
    if n > 0 { TimesIsProduct(n - 1, v); }
  }

  /** How many pairs of choices there are. */
  ghost function CountExecutions(events: seq<TraceEvent>, locations: seq<Location>): nat
    requires Distinct(events)
  {
    Times(|Product(AllChoices(events))|, |Product(AllOrders(events, Contested(events, locations)))|)
  }

  ghost function Variants(events: seq<TraceEvent>, locations: seq<Location>): seq<seq<seq<TraceEvent>>>
    requires Distinct(events)
  {
    Product(AllOrders(events, Contested(events, locations)))
  }

  /** In the order of the search the first executions are refuted: all of the first i choices of sources, and the first
      k coherence choices with the next one. */
  ghost predicate AreRefuted(events: seq<TraceEvent>, locations: seq<Location>, i: nat, k: nat)
    requires ValidEvents(events)
  {
    var choices, variants := Product(AllChoices(events)), Variants(events, locations);
    && i <= |choices| && AllRefuted(events, locations, choices, i)
    && if i == |choices| then k == 0
       else k <= |variants| && VariantsRefuted(events, locations, choices[i], variants[..k])
  }

  /** So many executions were refuted. */
  ghost predicate HaveFailed(events: seq<TraceEvent>, locations: seq<Location>, n: nat)
    requires ValidEvents(events)
  {
    exists i, k :: AreRefuted(events, locations, i, k) && n == Times(i, |Variants(events, locations)|) + k
  }

  lemma TimesNext(i: nat, v: nat)
    ensures Times(i + 1, v) == Times(i, v) + v
  {
  }

  /** What the answers of the search say about the executions tried. */
  ghost predicate IsOutcome(events: seq<TraceEvent>, locations: seq<Location>, result: WindowResult, examined: nat,
                            maxExecutions: nat, ticks: Option<nat>)
    requires ValidEvents(events)
  {
    || (result.NeedsSolver? && examined == 0 && |Variants(events, locations)| > maxExecutions)
    || exists n: nat :: HaveFailed(events, locations, n) && EndsAfter(n, result, examined, maxExecutions, ticks)
                        && (result.Safe? ==> n == CountExecutions(events, locations))
  }

  method TryChoice(events: seq<TraceEvent>, locations: seq<Location>, choices: seq<seq<Option<TraceEvent>>>,
                   variants: seq<seq<seq<TraceEvent>>>, i: nat, sourcePpo: set<Edge>, targetPpo: set<Edge>,
                   before: nat, maxExecutions: nat, ticks: Option<nat>, controlFlowClosed: bool)
    returns (result: WindowResult, examined: nat)
    requires ValidEvents(events) && Uniform(events) && ListsLocations(events, locations)
    requires choices == Product(AllChoices(events)) && variants == Variants(events, locations) && i < |choices|
    requires AllRefuted(events, locations, choices, i) && before == Times(i, |variants|)
    requires EndsAfter(before, Safe, before, maxExecutions, ticks)
    requires sourcePpo == SparseOrder(events) && targetPpo == RvwmoOrder(events)
    ensures result.Safe? ==>
      && AllRefuted(events, locations, choices, i + 1) && examined == Times(i + 1, |variants|)
      && EndsAfter(examined, Safe, examined, maxExecutions, ticks)
    ensures !result.Safe? ==> IsOutcome(events, locations, result, examined, maxExecutions, ticks)
    ensures result.Candidate? ==> IsWitness(events, controlFlowClosed, result)
  {
    assert choices[i] in choices;
    ghost var k;
    result, examined, k := TryVariants(events, locations, choices[i], variants, sourcePpo, targetPpo,
                                       before, maxExecutions, ticks, controlFlowClosed);
    TimesNext(i, |variants|);
    if result.Safe? {
      assert variants[..|variants|] == variants;
      OneMoreRefuted(events, locations, choices, variants, i);
    } else {
      assert AreRefuted(events, locations, i, k);
      assert HaveFailed(events, locations, before + k);
    }
  }

  /** Answers for certain unless there are too many executions or the clock runs out. */
  method Enumerate(events: seq<TraceEvent>, locations: seq<Location>, maxExecutions: nat, ticks: Option<nat>,
                   controlFlowClosed: bool)
    returns (result: WindowResult, examined: nat)
    requires ValidEvents(events) && Uniform(events) && ListsLocations(events, locations)
    ensures result.Safe? ==> forall x :: !TargetOnly(events, x)
    ensures result.Candidate? ==> IsWitness(events, controlFlowClosed, result)
    ensures IsOutcome(events, locations, result, examined, maxExecutions, ticks)
  {
    examined := 0;
    var sourcePpo := SourcePreservedOrder(events);
    var targetPpo := TargetPreservedOrder(events);
    var choices := Product(AllChoices(events));
    var variants := Product(AllOrders(events, Contested(events, locations)));
    if |variants| > maxExecutions { return NeedsSolver, 0; }
    for i := 0 to |choices|
      invariant AllRefuted(events, locations, choices, i) && examined == Times(i, |variants|)
      invariant EndsAfter(examined, Safe, examined, maxExecutions, ticks)
    {
      result, examined := TryChoice(events, locations, choices, variants, i, sourcePpo, targetPpo,
                                    examined, maxExecutions, ticks, controlFlowClosed);
      if !result.Safe? { return; }
    }
    AllRefutedIsSafe(events, locations, choices);
    assert AreRefuted(events, locations, |choices|, 0);
    assert HaveFailed(events, locations, examined);
    result := Safe;
  }

  /** More than twelve accesses, or more than six writes at one location. */
  ghost predicate IsLarge(events: seq<TraceEvent>) {
    || |Select(events, (e: TraceEvent) => e.IsMemory())| > 12
    || exists w :: w in Writes(events) && |WritesAt(events, LocationOf(w))| > 6
  }

  /** The outcome of a search that lists the locations in some order. */
  ghost predicate IsSearched(events: seq<TraceEvent>, result: WindowResult, examined: nat, maxExecutions: nat,
                             ticks: Option<nat>)
    requires ValidEvents(events)
  {
    exists locations ::
      ListsLocations(events, locations) && IsOutcome(events, locations, result, examined, maxExecutions, ticks)
  }

  /** Searches the window. "Safe" is only answered when every legal execution was tried; mixed-width atomics are
      not decided, other mixed-width windows and large ones are left to the solver, and otherwise the search goes on
      to the first execution that is not refuted, the end, or the moment when the budget or the clock runs out. */
  method CheckWindow(events: seq<TraceEvent>, maxExecutions: nat, ticks: Option<nat>, controlFlowClosed: bool)
    returns (result: WindowResult, examined: nat)
    requires ValidEvents(events)
    ensures result.Safe? ==> forall x :: !TargetOnly(events, x)
    ensures result.Candidate? ==> Uniform(events) && IsWitness(events, controlFlowClosed, result)
    ensures result == Unknown(MixedAtomicCoherence) <==> HasMixedAtomics(Writes(events))
    ensures result == Unknown(MixedAtomicReadFrom)
       <==> !HasMixedAtomics(Writes(events)) && HasPartialAtomics(Reads(events), Writes(events))
    ensures !HasMixedAtomics(Writes(events)) && !HasPartialAtomics(Reads(events), Writes(events)) ==>
              if !Uniform(events) || IsLarge(events) then result == NeedsSolver && examined == 0
              else IsSearched(events, result, examined, maxExecutions, ticks)
  {
    UniformIffUnmixed(events);
    var mixed, mixedAtomic := MixedWrites(Writes(events));
    if mixedAtomic { return Unknown(MixedAtomicCoherence), 0; }
    var partial, partialAtomic := PartialReads(Reads(events), Writes(events));
    if partialAtomic { return Unknown(MixedAtomicReadFrom), 0; }
    var locations := WriteLocations(events);
    if mixed || partial || |Select(events, (e: TraceEvent) => e.IsMemory())| > 12
       || exists l :: l in locations && |WritesAt(events, l)| > 6 {
      return NeedsSolver, 0;
    }
    assert !IsLarge(events);
    result, examined := Enumerate(events, locations, maxExecutions, ticks, controlFlowClosed);
  }

  /** Both engines answer the same question: whenever the search is conclusive, the solver's constraint
      system has a solution exactly when the search found a candidate. */
  lemma EnginesAgree(events: seq<TraceEvent>, groups: seq<seq<TraceEvent>>, controlFlowClosed: bool,
                     result: WindowResult)
    requires AreComponents(groups, Writes(events))
    requires result.Safe? || result.Candidate?
    requires result.Safe? ==> forall x :: !TargetOnly(events, x)
    requires result.Candidate? ==> IsWitness(events, controlFlowClosed, result)
    ensures (exists s :: Satisfies(events, groups, s)) <==> result.Candidate?
  {
    SymbolicIsExact(events, groups);
    if result.Candidate? {
      assert TargetOnly(events, Listed(events, result.sources, result.orders));
    }
  }
}

/** The two machines and their executions, said by the kinds of events and the bytes they touch. */
module Machines {
  import opened Events
  import opened Graphs
  import opened Kinds
  import opened PreservedOrder
  import opened ReadParts
  import opened Executions

  // ----- Preserved orders -----

  /** x86-TSO keeps everything but a store in front of a load of other bytes, unless a fence or atomic is involved. */
  ghost predicate SourceKeeps(a: TraceEvent, b: TraceEvent) {
    && IsBefore(a, b)
    && (|| (Loads(a.kind) && (Loads(b.kind) || Stores(b.kind)))
        || (Stores(a.kind) && Stores(b.kind))
        || (Stores(a.kind) && Loads(b.kind) && ShareByte(a, b))
        || Admits(a.kind, b.kind) || Admits(b.kind, a.kind))
  }

  /** a is the last store before the load b that writes some of its bytes. */
  ghost predicate IsLatestStore(events: seq<TraceEvent>, a: TraceEvent, b: TraceEvent) {
    && Stores(a.kind) && ShareByte(a, b)
    && forall c :: c in events && Stores(c.kind) && ShareByte(c, b) && IsBefore(c, b) ==> !IsBefore(a, c)
  }

  /** RVWMO without dependencies keeps an access in front of a store to the same bytes and of fences, and, as the
      analysis has it, the latest store to a load's bytes in front of the load. */
  ghost predicate TargetKeeps(events: seq<TraceEvent>, a: TraceEvent, b: TraceEvent) {
    && IsBefore(a, b)
    && (|| (IsAccess(a) && Stores(b.kind) && ShareByte(a, b))
        || (Loads(b.kind) && IsLatestStore(events, a, b))
        || Admits(a.kind, b.kind) || Admits(b.kind, a.kind))
  }

  ghost function SourceOrder(events: seq<TraceEvent>): set<Edge> {
    set a, b | a in events && b in events && SourceKeeps(a, b) :: (a, b)
  }

  ghost function TargetOrder(events: seq<TraceEvent>): set<Edge> {
    set a, b | a in events && b in events && TargetKeeps(events, a, b) :: (a, b)
  }

  lemma BoundariesAgree(a: TraceEvent, b: TraceEvent)
    ensures BoundaryPair(a, b) <==> IsBefore(a, b) && (Admits(a.kind, b.kind) || Admits(b.kind, a.kind))
  {
  }

  lemma SourcePairsAgree(events: seq<TraceEvent>, a: TraceEvent, b: TraceEvent)
    requires ValidEvents(events) && a in events && b in events
    ensures TsoPair(a, b) <==> SourceKeeps(a, b)
  {
    KindsAgree(a);
    KindsAgree(b);
    BoundariesAgree(a, b);
    if a.IsMemory() && b.IsMemory() { OverlapIsShared(a, b); }
  }

  lemma LatestAgrees(events: seq<TraceEvent>, a: TraceEvent, b: TraceEvent)
    requires ValidEvents(events) && a in events && b in events && b.IsRead()
    ensures NearestBefore(events, WritingInto(b), a, b) <==> IsBefore(a, b) && IsLatestStore(events, a, b)
  {
    forall c | c in events ensures WritingInto(b)(c) <==> Stores(c.kind) && ShareByte(c, b) {
      KindsAgree(c);
      if c.IsMemory() { OverlapIsShared(c, b); }
    }
  }

  lemma TargetPairsAgree(events: seq<TraceEvent>, a: TraceEvent, b: TraceEvent)
    requires ValidEvents(events) && a in events && b in events
    ensures RvwmoPair(events, a, b) || BoundaryPair(a, b) <==> TargetKeeps(events, a, b)
  {
    KindsAgree(a);
    KindsAgree(b);
    BoundariesAgree(a, b);
    if a.IsMemory() && b.IsMemory() { OverlapIsShared(a, b); }
    if b.IsRead() { LatestAgrees(events, a, b); }
  }

  /** The source order of a window has the reachability of what x86-TSO keeps. */
  lemma SourceOrderByKind(events: seq<TraceEvent>)
    requires ValidEvents(events)
    ensures SameReachability(SparseOrder(events), SourceOrder(events))
  {
    SparseOrderIsComplete(events);
    forall a: TraceEvent, b: TraceEvent ensures (a, b) in TsoOrder(events) <==> (a, b) in SourceOrder(events) {
      if a in events && b in events { SourcePairsAgree(events, a, b); }
    }
    assert TsoOrder(events) == SourceOrder(events);
  }

  /** The target order is exactly what the target keeps. */
  lemma TargetOrderByKind(events: seq<TraceEvent>)
    requires ValidEvents(events)
    ensures RvwmoOrder(events) == TargetOrder(events)
  {
    forall a: TraceEvent, b: TraceEvent ensures (a, b) in RvwmoOrder(events) <==> (a, b) in TargetOrder(events) {
      if a in events && b in events { TargetPairsAgree(events, a, b); }
    }
  }

  // ----- Executions -----

  /** Inside the read r a store begins or ends at this byte. */
  ghost predicate IsBorder(events: seq<TraceEvent>, r: TraceEvent, byte: int) {
    && r.address < byte < r.address + r.size
    && exists w :: w in events && Stores(w.kind) && (w.address == byte || w.address + w.size == byte)
  }

  /** A piece of a read between neighbouring borders: every store writes all of its bytes or none. */
  ghost predicate IsPiece(events: seq<TraceEvent>, p: ReadPart) {
    var r := p.event;
    && r in events && Loads(r.kind) && p.size > 0
    && (p.address == r.address || IsBorder(events, r, p.address))
    && (p.address + p.size == r.address + r.size || IsBorder(events, r, p.address + p.size))
    && forall byte: int :: p.address < byte < p.address + p.size ==> !IsBorder(events, r, byte)
  }

  /** w writes all bytes of the piece and is not the reading event or a later one of its thread. */
  ghost predicate CanFeed(w: TraceEvent, p: ReadPart) {
    && Stores(w.kind) && w != p.event && !IsBefore(p.event, w)
    && forall byte: int :: p.address <= byte < p.address + p.size ==> Touches(w, byte)
  }

  lemma CutByBorder(events: seq<TraceEvent>, r: TraceEvent, byte: nat)
    requires ValidEvents(events) && r in events && Loads(r.kind)
    ensures byte in Cuts(r, Writes(events))
       <==> byte == r.address || byte == r.address + r.size || IsBorder(events, r, byte)
  {
    forall w | w in events ensures w in Writes(events) <==> Stores(w.kind) { KindsAgree(w); }
    if IsBorder(events, r, byte) {
      var w :| w in events && Stores(w.kind) && (w.address == byte || w.address + w.size == byte);
      KindsAgree(w);
      assert w in Writes(events) && w.Overlaps(r);
      if w.address == byte {
        assert ReadParts.Max(r.address, w.address) == byte;
      } else {
        assert ReadParts.Min(r.EndAddress(), w.EndAddress()) == byte;
      }
    }
  }

  lemma PieceIsPart(events: seq<TraceEvent>, p: ReadPart)
    requires ValidEvents(events)
    ensures IsPartOf(events, p) <==> IsPiece(events, p)
  {
    var r := p.event;
    KindsAgree(r);
    if r in events && Loads(r.kind) {
      forall byte: nat ensures byte in Cuts(r, Writes(events))
        <==> byte == r.address || byte == r.address + r.size || IsBorder(events, r, byte) {
        CutByBorder(events, r, byte);
      }
      CutsLieInside(r, Writes(events));
    }
  }

  lemma FeederAgrees(events: seq<TraceEvent>, w: TraceEvent, p: ReadPart)
    requires ValidEvents(events) && w in events && p.event in events && p.size > 0
    ensures MayFeed(w, p) <==> CanFeed(w, p)
  {
    KindsAgree(w);
    if CanFeed(w, p) {
      assert Touches(w, p.address) && Touches(w, p.address + p.size - 1);
    }
  }

  /** Stores that touch a common byte. */
  ghost function StoreGraph(events: seq<TraceEvent>): set<Edge> {
    set a, b | a in events && b in events && Stores(a.kind) && Stores(b.kind) && ShareByte(a, b) :: (a, b)
  }

  /** v is a store linked to w by a chain of shared bytes. */
  ghost predicate IsLinked(events: seq<TraceEvent>, w: TraceEvent, v: TraceEvent) {
    v in events && Stores(v.kind) && (v == w || Reaches(StoreGraph(events), w, v))
  }

  /** Every piece has a source that can feed it, or the initial contents. */
  ghost predicate ReadsAreFed(events: seq<TraceEvent>, x: Execution) {
    forall p :: IsPiece(events, p) ==>
      p in x.rf && (x.rf[p].Some? ==> x.rf[p].value in events && CanFeed(x.rf[p].value, p))
  }

  /** Linked stores are in one line, each once, and stores of a thread to common bytes keep their order. */
  ghost predicate StoresAreLinedUp(events: seq<TraceEvent>, x: Execution) {
    forall w :: w in events && Stores(w.kind) ==>
      && w in x.line && IsLineOf(events, w, x.line[w])
      && forall v :: IsLinked(events, w, v) ==> v in x.line && x.line[v] == x.line[w]
  }

  ghost predicate IsLineOf(events: seq<TraceEvent>, w: TraceEvent, line: seq<TraceEvent>) {
    && (forall v :: v in line <==> IsLinked(events, w, v))
    && forall i, j :: 0 <= i < j < |line| ==>
         line[i] != line[j] && !(ShareByte(line[i], line[j]) && IsBefore(line[j], line[i]))
  }

  /** Nothing comes between an atomic and the store it reads from. */
  ghost predicate AtomicsFollowTheirSource(events: seq<TraceEvent>, x: Execution) {
    forall p :: IsPiece(events, p) && p.event.kind == ATOMIC_RMW && p in x.rf ==>
      match x.rf[p]
      case None => p.event in x.line && x.line[p.event] != [] && x.line[p.event][0] == p.event
      case Some(w) =>
        w in x.line && exists i :: 0 <= i < |x.line[w]| - 1 && x.line[w][i] == w && x.line[w][i + 1] == p.event
  }

  ghost predicate IsEarlierStore(x: Execution, a: TraceEvent, b: TraceEvent) {
    a in x.line && exists i, j :: 0 <= i < j < |x.line[a]| && x.line[a][i] == a && x.line[a][j] == b
  }

  ghost predicate IsOverwritten(events: seq<TraceEvent>, x: Execution, a: TraceEvent, b: TraceEvent) {
    Stores(a.kind) && Stores(b.kind) && ShareByte(a, b) && IsEarlierStore(x, a, b)
  }

  ghost predicate IsReadElsewhere(events: seq<TraceEvent>, x: Execution, a: TraceEvent, b: TraceEvent) {
    a.thread != b.thread && exists p :: IsPiece(events, p) && p.event == b && p in x.rf && x.rf[p] == Some(a)
  }

  /** b overwrites bytes of a piece that a read before: from the initial contents, or from an earlier store. */
  ghost predicate IsReadFirst(events: seq<TraceEvent>, x: Execution, a: TraceEvent, b: TraceEvent) {
    && Stores(b.kind) && a != b
    && exists p :: IsPiece(events, p) && p.event == a && p in x.rf && OverwritesPiece(x, p, b)
  }

  ghost predicate OverwritesPiece(x: Execution, p: ReadPart, b: TraceEvent)
    requires p in x.rf
  {
    && (exists byte: int :: p.address <= byte < p.address + p.size && Touches(b, byte))
    && (x.rf[p].Some? ==> ShareByte(x.rf[p].value, b) && IsEarlierStore(x, x.rf[p].value, b))
  }

  ghost function Exchange(events: seq<TraceEvent>, x: Execution): set<Edge> {
    set a, b | a in events && b in events
               && (IsOverwritten(events, x, a, b) || IsReadElsewhere(events, x, a, b) || IsReadFirst(events, x, a, b))
      :: (a, b)
  }

  ghost predicate IsExecution(events: seq<TraceEvent>, x: Execution) {
    ReadsAreFed(events, x) && StoresAreLinedUp(events, x) && AtomicsFollowTheirSource(events, x)
  }

  /** RVWMO can show the execution and x86-TSO cannot. */
  ghost predicate IsForeign(events: seq<TraceEvent>, x: Execution) {
    && IsExecution(events, x)
    && Acyclic(TargetOrder(events) + Exchange(events, x)) && !Acyclic(SourceOrder(events) + Exchange(events, x))
  }

  // ----- They are the executions of the model -----

  lemma FedAgrees(events: seq<TraceEvent>, x: Execution)
    requires ValidEvents(events)
    ensures LegalReadFrom(events, x) <==> ReadsAreFed(events, x)
  {
    forall p ensures IsPartOf(events, p) <==> IsPiece(events, p) { PieceIsPart(events, p); }
    forall p, w | IsPiece(events, p) && w in events ensures MayFeed(w, p) <==> CanFeed(w, p) {
      FeederAgrees(events, w, p);
    }
  }

  lemma LinksAgree(events: seq<TraceEvent>, w: TraceEvent, v: TraceEvent)
    requires ValidEvents(events) && w in events && Stores(w.kind)
    ensures v in OverlapClass(Writes(events), w) <==> IsLinked(events, w, v)
  {
    forall a: TraceEvent, b: TraceEvent
      ensures (a, b) in OverlapGraph(Writes(events)) <==> (a, b) in StoreGraph(events) {
      KindsAgree(a);
      KindsAgree(b);
      if a in events && b in events && Stores(a.kind) && Stores(b.kind) { OverlapIsShared(a, b); }
    }
    assert OverlapGraph(Writes(events)) == StoreGraph(events);
    KindsAgree(v);
  }

  lemma LineAgrees(events: seq<TraceEvent>, w: TraceEvent, line: seq<TraceEvent>)
    requires ValidEvents(events) && w in events && Stores(w.kind)
    ensures Arranges(line, OverlapClass(Writes(events), w)) && KeepsThreadOrder(line) <==> IsLineOf(events, w, line)
  {
    forall v ensures v in OverlapClass(Writes(events), w) <==> IsLinked(events, w, v) { LinksAgree(events, w, v); }
    if forall v :: v in line ==> IsLinked(events, w, v) {
      forall i, j | 0 <= i < j < |line| ensures line[i].Overlaps(line[j]) <==> ShareByte(line[i], line[j]) {
        assert line[i] in line && line[j] in line;
        KindsAgree(line[i]);
        KindsAgree(line[j]);
        OverlapIsShared(line[i], line[j]);
      }
    }
  }

  lemma LinesAgree(events: seq<TraceEvent>, x: Execution)
    requires ValidEvents(events)
    ensures LegalCoherence(events, x) <==> StoresAreLinedUp(events, x)
  {
    forall w | w in events
      ensures w.IsWrite() <==> Stores(w.kind)
      ensures w.IsWrite() && w in x.line ==>
        (Arranges(x.line[w], OverlapClass(Writes(events), w)) && KeepsThreadOrder(x.line[w])
        <==> IsLineOf(events, w, x.line[w])) {
      KindsAgree(w);
      if w.IsWrite() && w in x.line { LineAgrees(events, w, x.line[w]); }
    }
  }

  lemma AtomicsAgree(events: seq<TraceEvent>, x: Execution)
    requires ValidEvents(events)
    ensures AtomicsAdjacent(events, x) <==> AtomicsFollowTheirSource(events, x)
  {
    forall p ensures IsPartOf(events, p) <==> IsPiece(events, p) { PieceIsPart(events, p); }
  }

  lemma OverwrittenAgrees(events: seq<TraceEvent>, x: Execution, a: TraceEvent, b: TraceEvent)
    requires ValidEvents(events) && a in events && b in events
    ensures CoherenceEdge(events, x, a, b) <==> IsOverwritten(events, x, a, b)
  {
    KindsAgree(a);
    KindsAgree(b);
    if Stores(a.kind) && Stores(b.kind) { OverlapIsShared(a, b); }
  }

  lemma MeetingAgrees(events: seq<TraceEvent>, b: TraceEvent, p: ReadPart)
    requires ValidEvents(events) && b in events && Stores(b.kind) && p.size > 0
    ensures Meets(b, p) <==> exists byte: int :: p.address <= byte < p.address + p.size && Touches(b, byte)
  {
    KindsAgree(b);
    if Meets(b, p) {
      var byte := if b.address < p.address then p.address else b.address;
      assert p.address <= byte < p.address + p.size && Touches(b, byte);
    }
  }

  lemma OverwritingAgrees(events: seq<TraceEvent>, x: Execution, p: ReadPart, a: TraceEvent, b: TraceEvent)
    requires ValidEvents(events) && b in events && ReadsAreFed(events, x)
    ensures FromReadEdge(events, x, p, a, b)
       <==> Stores(b.kind) && a != b && IsPiece(events, p) && p.event == a && p in x.rf && OverwritesPiece(x, p, b)
  {
    KindsAgree(b);
    PieceIsPart(events, p);
    if Stores(b.kind) && IsPiece(events, p) && p in x.rf {
      MeetingAgrees(events, b, p);
      if x.rf[p].Some? {
        KindsAgree(x.rf[p].value);
        OverlapIsShared(x.rf[p].value, b);
      }
    }
  }

  lemma ReadFirstAgrees(events: seq<TraceEvent>, x: Execution, a: TraceEvent, b: TraceEvent)
    requires ValidEvents(events) && b in events && ReadsAreFed(events, x)
    ensures (exists p :: FromReadEdge(events, x, p, a, b)) <==> IsReadFirst(events, x, a, b)
  {
    if p :| FromReadEdge(events, x, p, a, b) { OverwritingAgrees(events, x, p, a, b); }
    if IsReadFirst(events, x, a, b) {
      var p :| IsPiece(events, p) && p.event == a && p in x.rf && OverwritesPiece(x, p, b);
      OverwritingAgrees(events, x, p, a, b);
    }
  }

  lemma ExchangeAgrees(events: seq<TraceEvent>, x: Execution)
    requires ValidEvents(events) && ReadsAreFed(events, x)
    ensures Communication(events, x) == Exchange(events, x)
  {
    forall p ensures IsPartOf(events, p) <==> IsPiece(events, p) { PieceIsPart(events, p); }
    forall a: TraceEvent, b: TraceEvent ensures (a, b) in Communication(events, x) <==> (a, b) in Exchange(events, x) {
      if a in events && b in events {
        OverwrittenAgrees(events, x, a, b);
        ReadFirstAgrees(events, x, a, b);
        ReadElsewhereAgrees(events, x, a, b);
      }
    }
  }

  lemma ReadElsewhereAgrees(events: seq<TraceEvent>, x: Execution, a: TraceEvent, b: TraceEvent)
    requires forall p :: IsPartOf(events, p) <==> IsPiece(events, p)
    ensures (exists p :: ReadFromEdge(events, x, p, a, b)) <==> IsReadElsewhere(events, x, a, b)
  {
    if p :| ReadFromEdge(events, x, p, a, b) { assert IsPiece(events, p); }
    if IsReadElsewhere(events, x, a, b) {
      var p :| IsPiece(events, p) && p.event == b && p in x.rf && x.rf[p] == Some(a);
      assert ReadFromEdge(events, x, p, a, b);
    }
  }

  lemma SourceCyclesAgree(events: seq<TraceEvent>, exchange: set<Edge>)
    requires ValidEvents(events)
    ensures Acyclic(SparseOrder(events) + exchange) <==> Acyclic(SourceOrder(events) + exchange)
  {
    SourceOrderByKind(events);
    var sparse, full := SparseOrder(events), SourceOrder(events);
    forall a, b | (a, b) in sparse + exchange ensures Reaches(full + exchange, a, b) {
      ReachedInMore(sparse, full, exchange, a, b);
    }
    forall a, b | (a, b) in full + exchange ensures Reaches(sparse + exchange, a, b) {
      ReachedInMore(full, sparse, exchange, a, b);
    }
    if Acyclic(full + exchange) { AcyclicThroughInclusion(sparse + exchange, full + exchange); }
    if Acyclic(sparse + exchange) { AcyclicThroughInclusion(full + exchange, sparse + exchange); }
  }

  lemma ReachedInMore(some: set<Edge>, other: set<Edge>, exchange: set<Edge>, a: TraceEvent, b: TraceEvent)
    requires SameReachability(some, other) && (a, b) in some + exchange
    ensures Reaches(other + exchange, a, b)
  {
    if (a, b) in some {
      EdgeReaches(some, a, b);
      ReachesMonotone(other, other + exchange, a, b);
    } else {
      EdgeReaches(other + exchange, a, b);
    }
  }

  /** What the window checker searches for is what RVWMO can show and x86-TSO cannot. */
  lemma TargetOnlyIsForeign(events: seq<TraceEvent>, x: Execution)
    requires ValidEvents(events)
    ensures TargetOnly(events, x) <==> IsForeign(events, x)
  {
    FedAgrees(events, x);
    LinesAgree(events, x);
    AtomicsAgree(events, x);
    if Legal(events, x) {
      ExchangeAgrees(events, x);
      TargetOrderByKind(events);
      SourceCyclesAgree(events, Exchange(events, x));
    }
  }
}

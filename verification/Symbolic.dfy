/** The constraint system of the symbolic checker. A solver answer is read as "an assignment exists";
    the system is shown to describe exactly the target-only executions of the window. */
module Symbolic {
  import opened Events
  import opened Graphs
  import opened PreservedOrder
  import opened ReadParts
  import opened Executions

  datatype Assignment = Assignment(
    targetRank: map<TraceEvent, int>,
    coRank: map<TraceEvent, int>,
    choice: map<ReadPart, int>,
    cycleNodes: set<TraceEvent>,
    cycleEdges: set<Edge>)

  function Candidates(events: seq<TraceEvent>, p: ReadPart): (r: seq<TraceEvent>)
    ensures forall w :: w in r <==> w in events && MayFeed(w, p)
    ensures Distinct(events) ==> Distinct(r)
  {
    Select(events, (w: TraceEvent) => MayFeed(w, p))
  }

  /** The groups are the overlap classes of the writes, each listed once. */
  ghost predicate AreComponents(groups: seq<seq<TraceEvent>>, writes: seq<TraceEvent>) {
    && (forall g :: g in groups ==> forall w :: w in g ==> w in writes && Arranges(g, OverlapClass(writes, w)))
    && (forall w :: w in writes ==> exists g :: g in groups && w in g)
    && (forall g, h, w :: g in groups && h in groups && w in g && w in h ==> g == h)
  }

  // ----- The constraints -----

  ghost predicate RanksAreDistinct(group: seq<TraceEvent>, rank: map<TraceEvent, int>) {
    && (forall w :: w in group ==> w in rank && 0 <= rank[w] < |group|)
    && (forall i, j :: 0 <= i < j < |group| ==> rank[group[i]] != rank[group[j]])
  }

  ghost predicate RanksKeepThreadOrder(group: seq<TraceEvent>, rank: map<TraceEvent, int>)
    requires forall w :: w in group ==> w in rank
  {
    forall a, b :: a in group && b in group && a.Overlaps(b) && a.Precedes(b) ==> rank[a] < rank[b]
  }

  ghost predicate CoherenceConstraints(groups: seq<seq<TraceEvent>>, rank: map<TraceEvent, int>) {
    forall g :: g in groups ==> RanksAreDistinct(g, rank) && RanksKeepThreadOrder(g, rank)
  }

  ghost predicate ReadConstraint(events: seq<TraceEvent>, s: Assignment, p: ReadPart)
    requires forall w :: w in events && w.IsWrite() ==> w in s.coRank
    requires p.event in events
  {
    var candidates := Candidates(events, p);
    && p in s.choice && -1 <= s.choice[p] < |candidates|
    && (p.event.kind.ATOMIC_RMW? && s.choice[p] == -1 ==> s.coRank[p.event] == 0)
    && (p.event.kind.ATOMIC_RMW? ==> forall i :: 0 <= i < |candidates| && s.choice[p] == i ==>
          s.coRank[p.event] == s.coRank[candidates[i]] + 1)
  }

  /** Condition under which a coherence edge is active. */
  ghost predicate CoActive(groups: seq<seq<TraceEvent>>, s: Assignment, a: TraceEvent, b: TraceEvent) {
    exists g :: g in groups && a in g && b in g && a != b && a.Overlaps(b)
      && a in s.coRank && b in s.coRank && s.coRank[a] < s.coRank[b]
  }

  ghost predicate RfActive(events: seq<TraceEvent>, s: Assignment, p: ReadPart, a: TraceEvent, b: TraceEvent) {
    var candidates := Candidates(events, p);
    && IsPartOf(events, p) && b == p.event && a.thread != b.thread
    && p in s.choice && 0 <= s.choice[p] < |candidates| && candidates[s.choice[p]] == a
  }

  ghost predicate FrActive(events: seq<TraceEvent>, s: Assignment, p: ReadPart, a: TraceEvent, b: TraceEvent) {
    var candidates := Candidates(events, p);
    && IsPartOf(events, p) && a == p.event && b in events && b.IsWrite() && Meets(b, p) && b != a
    && p in s.choice
    && (|| s.choice[p] == -1
        || exists i :: 0 <= i < |candidates| && s.choice[p] == i
             && candidates[i].Overlaps(b) && candidates[i] != b
             && candidates[i] in s.coRank && b in s.coRank && s.coRank[candidates[i]] < s.coRank[b])
  }

  ghost predicate Active(events: seq<TraceEvent>, groups: seq<seq<TraceEvent>>, s: Assignment, a: TraceEvent,
                         b: TraceEvent) {
    || CoActive(groups, s, a, b)
    || exists p :: RfActive(events, s, p, a, b) || FrActive(events, s, p, a, b)
  }

  ghost function ActiveEdges(events: seq<TraceEvent>, groups: seq<seq<TraceEvent>>, s: Assignment): set<Edge> {
    set a, b | a in events && b in events && Active(events, groups, s, a, b) :: (a, b)
  }

  ghost predicate TargetRankConstraints(events: seq<TraceEvent>, groups: seq<seq<TraceEvent>>, target: set<Edge>,
                                        s: Assignment) {
    && (forall e :: e in events ==> e in s.targetRank)
    && (forall a, b :: (a, b) in target + ActiveEdges(events, groups, s) ==>
          a in s.targetRank && b in s.targetRank && s.targetRank[a] < s.targetRank[b])
  }

  ghost predicate CycleConstraints(events: seq<TraceEvent>, groups: seq<seq<TraceEvent>>, source: set<Edge>,
                                   s: Assignment) {
    var all := set e | e in events;
    && {} < s.cycleNodes <= all
    && s.cycleEdges <= source + ActiveEdges(events, groups, s)
    && DegreesAreOne(all, s.cycleNodes, s.cycleEdges)
  }

  ghost predicate Satisfies(events: seq<TraceEvent>, groups: seq<seq<TraceEvent>>, s: Assignment) {
    && (forall w :: w in events && w.IsWrite() ==> w in s.coRank)
    && CoherenceConstraints(groups, s.coRank)
    && (forall p :: IsPartOf(events, p) ==> ReadConstraint(events, s, p))
    && TargetRankConstraints(events, groups, RvwmoOrder(events), s)
    && CycleConstraints(events, groups, SparseOrder(events), s)
  }

  // ----- Ranks and coherence orders are the same thing -----

  lemma {:induction false} InjectiveImage(s: seq<int>)
    requires Distinct(s)
    ensures |set v | v in s| == |s|
  {
    if s != [] {
      var rest := s[..|s| - 1];
      InjectiveImage(rest);
      assert s == rest + [s[|s| - 1]];
      assert (set v | v in s) == (set v | v in rest) + {s[|s| - 1]};
      assert s[|s| - 1] !in rest;
    }
  }

  ghost function Below(n: nat): (r: set<int>)
    ensures |r| == n && forall v :: v in r <==> 0 <= v < n
  {
    if n == 0 then {} else Below(n - 1) + {n - 1}
  }

  /** n distinct ranks below n leave no gap. */
  lemma EveryRankIsTaken(group: seq<TraceEvent>, rank: map<TraceEvent, int>, k: nat) returns (i: nat)
    requires RanksAreDistinct(group, rank) && k < |group|
    ensures i < |group| && rank[group[i]] == k
  {
    var ranks := seq(|group|, i requires 0 <= i < |group| => rank[group[i]]);
    InjectiveImage(ranks);
    var taken := set v | v in ranks;
    assert taken <= Below(|group|);
    if k !in ranks {
      assert taken < Below(|group|) by { assert k in Below(|group|) && k !in taken; }
      ProperSubsetIsSmaller(taken, Below(|group|));
    }
    i :| 0 <= i < |ranks| && ranks[i] == k;
  }

  /** Lines a group up by rank: the k-th write is the one of rank k. */
  ghost predicate IsRankedLine(group: seq<TraceEvent>, rank: map<TraceEvent, int>, line: seq<TraceEvent>) {
    && |line| == |group| && Distinct(line)
    && (forall w :: w in line <==> w in group)
    && (forall k :: 0 <= k < |line| ==> line[k] in rank && rank[line[k]] == k)
  }

  /** Lines a group up by rank: the k-th write is the one of rank k. */
  lemma LineUp(group: seq<TraceEvent>, rank: map<TraceEvent, int>) returns (line: seq<TraceEvent>)
    requires RanksAreDistinct(group, rank)
    ensures IsRankedLine(group, rank, line)
  {
    line := [];
    for k := 0 to |group|
      invariant |line| == k
      invariant forall j :: 0 <= j < k ==> line[j] in group && rank[line[j]] == j
    {
      var i := EveryRankIsTaken(group, rank, k);
      line := line + [group[i]];
    }
    forall w | w in group ensures w in line {
      var j :| 0 <= j < |group| && group[j] == w;
      var i :| 0 <= i < |group| && group[i] == line[rank[w]];
      assert i == j;
    }
  }

  ghost function RankedLine(group: seq<TraceEvent>, rank: map<TraceEvent, int>): (line: seq<TraceEvent>)
    requires RanksAreDistinct(group, rank)
    ensures IsRankedLine(group, rank, line)
  {
    SomeRankedLine(group, rank);
    var line :| IsRankedLine(group, rank, line); line
  }

  lemma SomeRankedLine(group: seq<TraceEvent>, rank: map<TraceEvent, int>)
    requires RanksAreDistinct(group, rank)
    ensures exists line :: IsRankedLine(group, rank, line)
  {
    var line := LineUp(group, rank);
  }

  // ----- Assignments and executions that mean the same -----

  ghost predicate SameReads(events: seq<TraceEvent>, x: Execution, s: Assignment) {
    forall p :: IsPartOf(events, p) ==>
      && p in x.rf && p in s.choice
      && (x.rf[p] == None ==> s.choice[p] == -1)
      && (x.rf[p].Some? ==>
            0 <= s.choice[p] < |Candidates(events, p)| && Candidates(events, p)[s.choice[p]] == x.rf[p].value)
  }

  ghost predicate SameCoherence(events: seq<TraceEvent>, x: Execution, s: Assignment) {
    forall w :: w in events && w.IsWrite() ==>
      && w in s.coRank && w in x.line
      && 0 <= s.coRank[w] < |x.line[w]| && x.line[w][s.coRank[w]] == w
  }

  ghost predicate Corresponds(events: seq<TraceEvent>, x: Execution, s: Assignment) {
    LegalReadFrom(events, x) && LegalCoherence(events, x) && SameReads(events, x, s) && SameCoherence(events, x, s)
  }

  lemma RankOrderIsLineOrder(events: seq<TraceEvent>, x: Execution, s: Assignment, a: TraceEvent, b: TraceEvent)
    requires Corresponds(events, x, s)
    requires a in events && b in events && a.IsWrite() && b.IsWrite() && a.Overlaps(b)
    ensures Before(x, a, b) <==> s.coRank[a] < s.coRank[b]
    ensures ImmediatelyBefore(x, a, b) <==> s.coRank[b] == s.coRank[a] + 1
    ensures IsFirst(x, a) <==> s.coRank[a] == 0
  {
    SameClassSameLine(events, x, a, b);
    BeforeByPosition(events, x, a, b, s.coRank[a], s.coRank[b]);
  }

  lemma CoherenceEdgesAgree(events: seq<TraceEvent>, groups: seq<seq<TraceEvent>>, x: Execution, s: Assignment,
                            a: TraceEvent, b: TraceEvent)
    requires Corresponds(events, x, s) && AreComponents(groups, Writes(events))
    ensures CoherenceEdge(events, x, a, b) <==> CoActive(groups, s, a, b)
  {
    if a in events && b in events && a.IsWrite() && b.IsWrite() && a.Overlaps(b) {
      RankOrderIsLineOrder(events, x, s, a, b);
      var g :| g in groups && a in g;
      EdgeReaches(OverlapGraph(Writes(events)), a, b);
      assert b in OverlapClass(Writes(events), a);
      assert b in g;
    }
  }

  lemma FeedingWriteOverlaps(events: seq<TraceEvent>, p: ReadPart, w: TraceEvent, b: TraceEvent)
    requires IsPartOf(events, p) && MayFeed(w, p)
    ensures Meets(b, p) ==> w.Overlaps(b)
    ensures w.Overlaps(p.event) && Meets(p.event, p)
  {
    CutsLieInside(p.event, Writes(events));
  }

  lemma ReadEdgesAgree(events: seq<TraceEvent>, x: Execution, s: Assignment, p: ReadPart, a: TraceEvent, b: TraceEvent)
    requires Corresponds(events, x, s)
    ensures ReadFromEdge(events, x, p, a, b) <==> RfActive(events, s, p, a, b)
    ensures FromReadEdge(events, x, p, a, b) <==> FrActive(events, s, p, a, b)
  {
    if IsPartOf(events, p) {
      assert p in x.rf && p in s.choice;
      if x.rf[p].Some? {
        var w := x.rf[p].value;
        assert w in events && w.IsWrite();
        if b in events && b.IsWrite() && w.Overlaps(b) { RankOrderIsLineOrder(events, x, s, w, b); }
      }
    }
  }

  lemma CommunicationAgrees(events: seq<TraceEvent>, groups: seq<seq<TraceEvent>>, x: Execution, s: Assignment)
    requires Corresponds(events, x, s) && AreComponents(groups, Writes(events))
    ensures Communication(events, x) == ActiveEdges(events, groups, s)
  {
    forall a, b | a in events && b in events
      ensures Communicates(events, x, a, b) <==> Active(events, groups, s, a, b) {
      CoherenceEdgesAgree(events, groups, x, s, a, b);
      forall p ensures ReadFromEdge(events, x, p, a, b) <==> RfActive(events, s, p, a, b)
               ensures FromReadEdge(events, x, p, a, b) <==> FrActive(events, s, p, a, b) {
        ReadEdgesAgree(events, x, s, p, a, b);
      }
    }
  }

  lemma AtomicityAgrees(events: seq<TraceEvent>, x: Execution, s: Assignment, p: ReadPart)
    requires Corresponds(events, x, s) && IsPartOf(events, p)
    ensures ReadConstraint(events, s, p) <==>
            (p.event.kind.ATOMIC_RMW? ==> match x.rf[p]
             case None => IsFirst(x, p.event)
             case Some(w) => ImmediatelyBefore(x, w, p.event))
  {
    var r := p.event;
    assert p in x.rf && p in s.choice;
    if r.kind.ATOMIC_RMW? {
      match x.rf[p] {
        case None => BeforeByPosition(events, x, r, r, s.coRank[r], s.coRank[r]);
        case Some(w) =>
          FeedingWriteOverlaps(events, p, w, r);
          RankOrderIsLineOrder(events, x, s, w, r);
      }
    }
  }

  // ----- From assignments to executions -----

  ghost function ReadChoices(events: seq<TraceEvent>, s: Assignment): map<ReadPart, Option<TraceEvent>>
    requires forall p :: IsPartOf(events, p) ==> p in s.choice
  {
    map p | p in s.choice && IsPartOf(events, p) ::
      if 0 <= s.choice[p] < |Candidates(events, p)| then Some(Candidates(events, p)[s.choice[p]]) else None
  }

  ghost function GroupOf(groups: seq<seq<TraceEvent>>, w: TraceEvent): (g: seq<TraceEvent>)
    requires exists g :: g in groups && w in g
    ensures g in groups && w in g
  {
    var g :| g in groups && w in g; g
  }

  ghost function RankedLines(events: seq<TraceEvent>, groups: seq<seq<TraceEvent>>, s: Assignment)
      : map<TraceEvent, seq<TraceEvent>>
    requires AreComponents(groups, Writes(events)) && CoherenceConstraints(groups, s.coRank)
  {
    map w | w in Writes(events) :: RankedLine(GroupOf(groups, w), s.coRank)
  }

  lemma RankedLineIsLegal(group: seq<TraceEvent>, rank: map<TraceEvent, int>, w: TraceEvent)
    requires RanksAreDistinct(group, rank) && RanksKeepThreadOrder(group, rank) && w in group
    ensures KeepsThreadOrder(RankedLine(group, rank))
    ensures 0 <= rank[w] < |RankedLine(group, rank)| && RankedLine(group, rank)[rank[w]] == w
  {
    var line := RankedLine(group, rank);
    assert IsRankedLine(group, rank, line);
    var k :| 0 <= k < |line| && line[k] == w;
    forall i, j | 0 <= i < j < |line| && line[i].Overlaps(line[j]) ensures !line[j].Precedes(line[i]) {
      assert line[i] in group && line[j] in group && line[j].Overlaps(line[i]);
    }
  }

  lemma RankedLineOfMember(events: seq<TraceEvent>, groups: seq<seq<TraceEvent>>, s: Assignment, w: TraceEvent)
    requires AreComponents(groups, Writes(events)) && CoherenceConstraints(groups, s.coRank) && w in Writes(events)
    ensures var line := RankedLines(events, groups, s)[w];
      && Arranges(line, OverlapClass(Writes(events), w)) && KeepsThreadOrder(line)
      && w in s.coRank && 0 <= s.coRank[w] < |line| && line[s.coRank[w]] == w
      && forall v :: v in line ==> v in Writes(events) && RankedLines(events, groups, s)[v] == line
  {
    var g := GroupOf(groups, w);
    var line := RankedLine(g, s.coRank);
    RankedLineIsLegal(g, s.coRank, w);
    assert IsRankedLine(g, s.coRank, line);
    forall v | v in line ensures v in Writes(events) && RankedLines(events, groups, s)[v] == line {
      assert v in g && GroupOf(groups, v) == g;
    }
  }

  lemma RankedLinesAreLegal(events: seq<TraceEvent>, groups: seq<seq<TraceEvent>>, s: Assignment, x: Execution)
    requires AreComponents(groups, Writes(events)) && CoherenceConstraints(groups, s.coRank)
    requires x.line == RankedLines(events, groups, s)
    ensures LegalCoherence(events, x) && SameCoherence(events, x, s)
  {
    forall w | w in Writes(events) { RankedLineOfMember(events, groups, s, w); }
  }

  ghost function ExecutionOf(events: seq<TraceEvent>, groups: seq<seq<TraceEvent>>, s: Assignment): Execution
    requires AreComponents(groups, Writes(events)) && Satisfies(events, groups, s)
  {
    Execution(ReadChoices(events, s), RankedLines(events, groups, s))
  }

  lemma ExecutionCorresponds(events: seq<TraceEvent>, groups: seq<seq<TraceEvent>>, s: Assignment)
    requires AreComponents(groups, Writes(events)) && Satisfies(events, groups, s)
    ensures Corresponds(events, ExecutionOf(events, groups, s), s)
    ensures Legal(events, ExecutionOf(events, groups, s))
  {
    var x := ExecutionOf(events, groups, s);
    RankedLinesAreLegal(events, groups, s, x);
    ReadChoicesAreLegal(events, s, x);
    forall p | IsPartOf(events, p) && p.event.kind.ATOMIC_RMW?
      ensures match x.rf[p] case None => IsFirst(x, p.event) case Some(w) => ImmediatelyBefore(x, w, p.event) {
      AtomicityAgrees(events, x, s, p);
    }
  }

  lemma ReadChoicesAreLegal(events: seq<TraceEvent>, s: Assignment, x: Execution)
    requires forall w :: w in events && w.IsWrite() ==> w in s.coRank
    requires forall p :: IsPartOf(events, p) ==> ReadConstraint(events, s, p)
    requires forall p :: IsPartOf(events, p) ==> p in s.choice
    requires x.rf == ReadChoices(events, s)
    ensures LegalReadFrom(events, x) && SameReads(events, x, s)
  {
    forall p | IsPartOf(events, p) ensures IsChosenFor(events, s, x, p) {
      assert ReadConstraint(events, s, p);
      ChoiceIsLegal(events, s, x, p);
    }
    ChosenReadsAreLegal(events, s, x);
  }

  /** The part reads what the solver chose for it. */
  ghost predicate IsChosenFor(events: seq<TraceEvent>, s: Assignment, x: Execution, p: ReadPart) {
    && p in x.rf && p in s.choice
    && match x.rf[p]
       case None => s.choice[p] == -1
       case Some(w) =>
         w in events && MayFeed(w, p)
         && 0 <= s.choice[p] < |Candidates(events, p)| && Candidates(events, p)[s.choice[p]] == w
  }

  lemma ChoiceIsLegal(events: seq<TraceEvent>, s: Assignment, x: Execution, p: ReadPart)
    requires forall q :: IsPartOf(events, q) ==> q in s.choice
    requires IsPartOf(events, p) && -1 <= s.choice[p] < |Candidates(events, p)| && x.rf == ReadChoices(events, s)
    ensures IsChosenFor(events, s, x, p)
  {
    var candidates, k := Candidates(events, p), s.choice[p];
    if k >= 0 {
      assert candidates[k] in candidates;
      assert x.rf[p] == Some(candidates[k]);
    }
  }

  lemma ChosenReadsAreLegal(events: seq<TraceEvent>, s: Assignment, x: Execution)
    requires forall p :: IsPartOf(events, p) ==> IsChosenFor(events, s, x, p)
    ensures LegalReadFrom(events, x) && SameReads(events, x, s)
  {
  }

  // ----- From executions to assignments -----

  ghost function IndexIn(s: seq<TraceEvent>, w: TraceEvent): (i: int)
    requires w in s
    ensures 0 <= i < |s| && s[i] == w
  {
    var i :| 0 <= i < |s| && s[i] == w; i
  }

  ghost function AssignmentOf(events: seq<TraceEvent>, x: Execution, rank: TraceEvent -> int, nodes: set<TraceEvent>,
                              edges: set<Edge>): Assignment
    requires LegalReadFrom(events, x) && LegalCoherence(events, x)
  {
    Assignment(
      map e | e in events :: rank(e),
      map w | w in Writes(events) :: LineIndex(events, x, w),
      map p | p in x.rf && IsPartOf(events, p) :: ChoiceIndex(events, x, p),
      nodes, edges)
  }

  ghost function LineIndex(events: seq<TraceEvent>, x: Execution, w: TraceEvent): (i: int)
    requires LegalCoherence(events, x) && w in events && w.IsWrite()
    ensures 0 <= i < |x.line[w]| && x.line[w][i] == w
  {
    assert w in OverlapClass(Writes(events), w);
    IndexIn(x.line[w], w)
  }

  ghost function ChoiceIndex(events: seq<TraceEvent>, x: Execution, p: ReadPart): (i: int)
    requires LegalReadFrom(events, x) && IsPartOf(events, p)
    ensures -1 <= i < |Candidates(events, p)|
    ensures x.rf[p] == None <==> i == -1
    ensures x.rf[p].Some? ==> Candidates(events, p)[i] == x.rf[p].value
  {
    match x.rf[p] case None => -1 case Some(w) => IndexIn(Candidates(events, p), w)
  }

  lemma AssignmentCorresponds(events: seq<TraceEvent>, x: Execution, rank: TraceEvent -> int, nodes: set<TraceEvent>,
                              edges: set<Edge>)
    requires LegalReadFrom(events, x) && LegalCoherence(events, x)
    ensures Corresponds(events, x, AssignmentOf(events, x, rank, nodes, edges))
  {
  }

  lemma CoherenceConstraintsHold(events: seq<TraceEvent>, groups: seq<seq<TraceEvent>>, x: Execution, s: Assignment)
    requires Corresponds(events, x, s) && AreComponents(groups, Writes(events))
    ensures CoherenceConstraints(groups, s.coRank)
  {
    forall g | g in groups ensures RanksAreDistinct(g, s.coRank) && RanksKeepThreadOrder(g, s.coRank) {
      forall w | w in g ensures |x.line[w]| == |g| {
        SameLength(x.line[w], g);
      }
      forall i, j | 0 <= i < j < |g| ensures s.coRank[g[i]] != s.coRank[g[j]] {
        assert g[j] in x.line[g[i]];
      }
      forall a, b | a in g && b in g && a.Overlaps(b) && a.Precedes(b) ensures s.coRank[a] < s.coRank[b] {
        SameClassSameLine(events, x, a, b);
      }
    }
  }

  lemma SameLength(s: seq<TraceEvent>, t: seq<TraceEvent>)
    requires Distinct(s) && Distinct(t) && forall v :: v in s <==> v in t
    ensures |s| == |t|
  {
    DistinctSize(s);
    DistinctSize(t);
    assert (set v | v in s) == (set v | v in t);
  }

  lemma {:induction false} DistinctSize(s: seq<TraceEvent>)
    requires Distinct(s)
    ensures |set v | v in s| == |s|
  {
    if s != [] {
      var rest, last := s[..|s| - 1], s[|s| - 1];
      DistinctSize(rest);
      assert s == rest + [last];
      assert (set v | v in s) == (set v | v in rest) + {last};
    }
  }

  // ----- The constraint system is exact -----

  /** The solver has an answer exactly when the window has a target-only execution. */
  lemma SymbolicIsExact(events: seq<TraceEvent>, groups: seq<seq<TraceEvent>>)
    requires AreComponents(groups, Writes(events))
    ensures (exists s :: Satisfies(events, groups, s)) <==> (exists x :: TargetOnly(events, x))
  {
    if s :| Satisfies(events, groups, s) {
      SolutionIsTargetOnly(events, groups, s);
    }
    if x :| TargetOnly(events, x) {
      var s := TargetOnlySolves(events, groups, x);
    }
  }

  /** The selected edges contain a cycle, and whatever cycle is found among them is one of the source. */
  lemma SelectionIsSourceCycle(events: seq<TraceEvent>, groups: seq<seq<TraceEvent>>, s: Assignment, source: set<Edge>)
    requires CycleConstraints(events, groups, source, s) && forall e :: e in source ==> e.0 in events && e.1 in events
    ensures !Acyclic(s.cycleEdges)
    ensures forall p :: IsCycle(s.cycleEdges, p) ==> IsCycle(source + ActiveEdges(events, groups, s), p)
  {
    DegreeSelectionNeedsCycle((set e | e in events), s.cycleEdges, s.cycleNodes, s.cycleEdges);
  }

  /** A solution stands for a target-only execution; the reported cycle of selected edges exists and is a cycle
      that the source forbids in it. */
  lemma SolutionIsTargetOnly(events: seq<TraceEvent>, groups: seq<seq<TraceEvent>>, s: Assignment)
    requires AreComponents(groups, Writes(events)) && Satisfies(events, groups, s)
    ensures TargetOnly(events, ExecutionOf(events, groups, s)) && !Acyclic(s.cycleEdges)
    ensures forall p :: IsCycle(s.cycleEdges, p) ==>
              IsCycle(SparseOrder(events) + Communication(events, ExecutionOf(events, groups, s)), p)
  {
    SelectionIsSourceCycle(events, groups, s, SparseOrder(events));
    var x := ExecutionOf(events, groups, s);
    ExecutionCorresponds(events, groups, s);
    CommunicationAgrees(events, groups, x, s);
    var target := RvwmoOrder(events) + Communication(events, x);
    assert RanksRise(target, e => if e in s.targetRank then s.targetRank[e] else 0);
    RisingRanksForbidCycles(target, e => if e in s.targetRank then s.targetRank[e] else 0);
    DegreeSelectionNeedsCycle((set e | e in events), SparseOrder(events) + Communication(events, x),
                              s.cycleNodes, s.cycleEdges);
  }

  lemma RisingRanksSatisfy(events: seq<TraceEvent>, groups: seq<seq<TraceEvent>>, x: Execution, s: Assignment,
                           rank: TraceEvent -> int)
    requires RanksRise(RvwmoOrder(events) + Communication(events, x), rank)
    requires Communication(events, x) == ActiveEdges(events, groups, s)
    requires s.targetRank == map e | e in events :: rank(e)
    ensures TargetRankConstraints(events, groups, RvwmoOrder(events), s)
  {
  }

  lemma TargetOnlySolves(events: seq<TraceEvent>, groups: seq<seq<TraceEvent>>, x: Execution)
    returns (s: Assignment)
    requires AreComponents(groups, Writes(events)) && TargetOnly(events, x)
    ensures Satisfies(events, groups, s)
  {
    var target, source := RvwmoOrder(events) + Communication(events, x), SparseOrder(events) + Communication(events, x);
    var all := set e | e in events;
    var rank := e => AncestorCount(target, e);
    AcyclicGraphsHaveRanks(target);
    var nodes, edges := CycleSelection(all, source);
    s := AssignmentOf(events, x, rank, nodes, edges);
    AssignmentCorresponds(events, x, rank, nodes, edges);
    CommunicationAgrees(events, groups, x, s);
    RisingRanksSatisfy(events, groups, x, s, rank);
    CoherenceConstraintsHold(events, groups, x, s);
    forall p | IsPartOf(events, p) ensures ReadConstraint(events, s, p) {
      AtomicityAgrees(events, x, s, p);
    }
  }

  lemma CycleSelection(all: set<TraceEvent>, source: set<Edge>) returns (nodes: set<TraceEvent>, edges: set<Edge>)
    requires !Acyclic(source) && forall e :: e in source ==> e.0 in all && e.1 in all
    ensures {} < nodes <= all && edges <= source && DegreesAreOne(all, nodes, edges)
  {
    DegreeSelectionIffCycle(all, source);
    nodes, edges :| {} < nodes <= all && edges <= source && DegreesAreOne(all, nodes, edges);
  }
}

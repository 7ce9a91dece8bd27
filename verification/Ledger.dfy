/** The evidence ledger: an append-only store of typed facts whose references never cross from static
    evidence to dynamic observations. */
module Ledger {
  import opened Events
  import opened Graphs
  import opened Reachability

  type EvidenceId = nat

  datatype Node =
    | ProofFact(id: EvidenceId, subject: Option<nat>, rule: string, scope: string, premises: seq<EvidenceId>,
      covered: seq<nat>)
    | ObservedFact(id: EvidenceId, trace: nat, subject: Option<nat>, observation: string)
    | DiagnosticHint(id: EvidenceId, scope: string, unknownIds: seq<EvidenceId>, observedIds: seq<EvidenceId>,
      rootCause: string)
    | UnknownFact(id: EvidenceId, reason: string, subject: Option<nat>, scope: string, provenance: seq<EvidenceId>)
  {
    /** Dynamic evidence: what a run showed, or what a diagnosis suggests. */
    predicate IsDynamic() { ObservedFact? || DiagnosticHint? }
  }

  datatype Discharge = Discharge(unknownId: EvidenceId, proofId: EvidenceId, scope: string)

  /** What an id is computed from. */
  function Content(n: Node): Node { n.(id := 0) }

  function ExpectedId(digest: Node -> EvidenceId, n: Node): EvidenceId { digest(Content(n)) }

  /** Different contents have different digests. */
  ghost predicate IsInjective(digest: Node -> EvidenceId) {
    forall a: Node, b: Node :: digest(a) == digest(b) ==> a == b
  }

  type Nodes = map<EvidenceId, Node>

  function IsProof(nodes: Nodes, i: EvidenceId): bool { i in nodes && nodes[i].ProofFact? }

  function IsUnknown(nodes: Nodes, i: EvidenceId): bool { i in nodes && nodes[i].UnknownFact? }

  /** The category rules for what a new node may refer to. */
  predicate ValidEdges(nodes: Nodes, n: Node) {
    match n
    case ProofFact(_, _, _, _, premises, _) => forall p :: p in premises ==> IsProof(nodes, p)
    case UnknownFact(_, _, _, _, provenance) => forall p :: p in provenance ==> p in nodes && !nodes[p].IsDynamic()
    case ObservedFact(_, _, _, _) => true
    case DiagnosticHint(_, _, unknownIds, observedIds, _) =>
      && (forall u :: u in unknownIds ==> IsUnknown(nodes, u))
      && (forall o :: o in observedIds ==> o in nodes && nodes[o].ObservedFact?)
  }

  function References(n: Node): seq<EvidenceId> {
    match n
    case ProofFact(_, _, _, _, premises, _) => premises
    case UnknownFact(_, _, _, _, provenance) => provenance
    case ObservedFact(_, _, _, _) => []
    case DiagnosticHint(_, _, unknownIds, observedIds, _) => unknownIds + observedIds
  }

  // ----- The ledger as a state machine -----

  /** order lists the ids as they were inserted. */
  datatype State = State(nodes: Nodes, order: seq<EvidenceId>, discharges: map<EvidenceId, Discharge>)

  const Empty := State(map[], [], map[])

  datatype Operation = Add(node: Node) | Close(discharge: Discharge)

  predicate CanAdd(digest: Node -> EvidenceId, s: State, n: Node) {
    n.id == ExpectedId(digest, n) && if n.id in s.nodes then s.nodes[n.id] == n else ValidEdges(s.nodes, n)
  }

  predicate CanClose(s: State, d: Discharge) {
    && IsUnknown(s.nodes, d.unknownId) && IsProof(s.nodes, d.proofId)
    && d.scope == s.nodes[d.unknownId].scope && d.scope == s.nodes[d.proofId].scope
    && (d.unknownId in s.discharges ==> s.discharges[d.unknownId] == d)
  }

  predicate IsAccepted(digest: Node -> EvidenceId, s: State, op: Operation) {
    match op
    case Add(n) => CanAdd(digest, s, n)
    case Close(d) => CanClose(s, d)
  }

  function Inserted(s: State, n: Node): State {
    if n.id in s.nodes then s else s.(nodes := s.nodes[n.id := n], order := s.order + [n.id])
  }

  /** A rejected operation changes nothing. */
  function Step(digest: Node -> EvidenceId, s: State, op: Operation): State {
    if !IsAccepted(digest, s, op) then s else
      match op
      case Add(n) => Inserted(s, n)
      case Close(d) => s.(discharges := s.discharges[d.unknownId := d])
  }

  function Run(digest: Node -> EvidenceId, ops: seq<Operation>): State {
    if ops == [] then Empty else Step(digest, Run(digest, ops[..|ops| - 1]), ops[|ops| - 1])
  }

  // ----- Every reachable ledger -----

  /** Nodes carry their own digest and their references have the right category. */
  ghost predicate NodesAreTyped(digest: Node -> EvidenceId, s: State) {
    forall i :: i in s.nodes ==>
      s.nodes[i].id == i && i == ExpectedId(digest, s.nodes[i]) && ValidEdges(s.nodes, s.nodes[i])
  }

  ghost predicate IsIndex(s: State, k: int, i: EvidenceId) {
    0 <= k < |s.order| && s.order[k] == i
  }

  /** The insertion order lists every node once, after everything that the node refers to. */
  ghost predicate OrderIsTopological(s: State) {
    && (forall i :: i in s.nodes <==> i in s.order)
    && (forall k, m :: 0 <= k < m < |s.order| ==> s.order[k] != s.order[m])
    && (forall k, i :: IsIndex(s, k, i) && i in s.nodes ==>
          forall r :: r in References(s.nodes[i]) ==> r in s.order[..k])
  }

  ghost predicate DischargesAreSound(s: State) {
    forall u :: u in s.discharges ==>
      && s.discharges[u].unknownId == u && IsUnknown(s.nodes, u) && IsProof(s.nodes, s.discharges[u].proofId)
      && s.discharges[u].scope == s.nodes[u].scope == s.nodes[s.discharges[u].proofId].scope
  }

  ghost predicate IsSound(digest: Node -> EvidenceId, s: State) {
    NodesAreTyped(digest, s) && OrderIsTopological(s) && DischargesAreSound(s)
  }

  lemma InsertedIsTyped(digest: Node -> EvidenceId, s: State, n: Node)
    requires NodesAreTyped(digest, s) && CanAdd(digest, s, n) && n.id !in s.nodes
    ensures NodesAreTyped(digest, Inserted(s, n))
  {
    var s' := Inserted(s, n);
    forall i | i in s'.nodes ensures ValidEdges(s'.nodes, s'.nodes[i]) {
      EdgesSurvive(s.nodes, n, s'.nodes[i]);
    }
  }

  lemma EdgesSurvive(nodes: Nodes, n: Node, m: Node)
    requires ValidEdges(nodes, m) && n.id !in nodes
    ensures ValidEdges(nodes[n.id := n], m)
  {
  }

  lemma ReferencesAreStored(nodes: Nodes, n: Node)
    requires ValidEdges(nodes, n)
    ensures forall r :: r in References(n) ==> r in nodes
  {
  }

  lemma InsertedIsOrdered(digest: Node -> EvidenceId, s: State, n: Node)
    requires OrderIsTopological(s) && CanAdd(digest, s, n) && n.id !in s.nodes
    ensures OrderIsTopological(Inserted(s, n))
  {
    var s' := Inserted(s, n);
    ReferencesAreStored(s.nodes, n);
    forall k, i | IsIndex(s', k, i) && i in s'.nodes ensures forall r ::
      r in References(s'.nodes[i]) ==> r in s'.order[..k] {
      if k < |s.order| {
        assert IsIndex(s, k, i) && s'.order[..k] == s.order[..k];
      } else {
        assert s'.order[..k] == s.order;
      }
    }
  }

  lemma InsertedKeepsDischarges(s: State, n: Node)
    requires DischargesAreSound(s) && n.id !in s.nodes
    ensures DischargesAreSound(Inserted(s, n))
  {
  }

  lemma StepIsSound(digest: Node -> EvidenceId, s: State, op: Operation)
    requires IsSound(digest, s)
    ensures IsSound(digest, Step(digest, s, op))
  {
    if op.Add? && IsAccepted(digest, s, op) && op.node.id !in s.nodes {
      InsertedIsTyped(digest, s, op.node);
      InsertedIsOrdered(digest, s, op.node);
      InsertedKeepsDischarges(s, op.node);
    } else if op.Close? && IsAccepted(digest, s, op) {
      CloseIsSound(digest, s, op.discharge);
    }
  }

  lemma CloseKeepsOrder(s: State, d: Discharge)
    requires OrderIsTopological(s)
    ensures OrderIsTopological(s.(discharges := s.discharges[d.unknownId := d]))
  {
    var s' := s.(discharges := s.discharges[d.unknownId := d]);
    forall k, i | IsIndex(s', k, i) && i in s'.nodes ensures forall r ::
      r in References(s'.nodes[i]) ==> r in s'.order[..k] {
      assert IsIndex(s, k, i);
    }
  }

  lemma CloseIsSound(digest: Node -> EvidenceId, s: State, d: Discharge)
    requires IsSound(digest, s) && CanClose(s, d)
    ensures IsSound(digest, s.(discharges := s.discharges[d.unknownId := d]))
  {
    CloseKeepsOrder(s, d);
    CloseKeepsDischarges(s, d);
  }

  lemma CloseKeepsDischarges(s: State, d: Discharge)
    requires DischargesAreSound(s) && CanClose(s, d)
    ensures DischargesAreSound(s.(discharges := s.discharges[d.unknownId := d]))
  {
  }

  /** Whatever the history, the ledger is a typed graph whose insertion order is topological. */
  lemma {:induction false} ReachableIsSound(digest: Node -> EvidenceId, ops: seq<Operation>)
    ensures IsSound(digest, Run(digest, ops))
  {
    if ops != [] {
      ReachableIsSound(digest, ops[..|ops| - 1]);
      StepIsSound(digest, Run(digest, ops[..|ops| - 1]), ops[|ops| - 1]);
    }
  }

  ghost function ReferenceArcs(nodes: Nodes): set<(EvidenceId, EvidenceId)> {
    set i, r | i in nodes && r in References(nodes[i]) :: (i, r)
  }

  ghost function Position(s: State, i: EvidenceId): int
    ensures i in s.order ==> IsIndex(s, Position(s, i), i)
  {
    if i in s.order then
      var k :| 0 <= k < |s.order| && s.order[k] == i;
      k
    else 0
  }

  /** In particular no fact refers to itself through other facts. */
  lemma ReferencesAreAcyclic(digest: Node -> EvidenceId, ops: seq<Operation>)
    ensures Acyclic(ReferenceArcs(Run(digest, ops).nodes))
  {
    var s := Run(digest, ops);
    ReachableIsSound(digest, ops);
    forall a, b | (a, b) in ReferenceArcs(s.nodes) ensures -Position(s, a) < -Position(s, b) {
      assert IsIndex(s, Position(s, a), a) && b in s.order[..Position(s, a)];
      assert IsIndex(s, Position(s, b), b);
    }
    RisingRanksForbidCycles(ReferenceArcs(s.nodes), i => -Position(s, i));
  }

  /** Nodes and discharges, once stored, stay as they are. */
  lemma StepOnlyAppends(digest: Node -> EvidenceId, s: State, op: Operation)
    ensures var s' := Step(digest, s, op);
            && (forall i :: i in s.nodes ==> i in s'.nodes && s'.nodes[i] == s.nodes[i])
            && (forall u :: u in s.discharges ==> u in s'.discharges && s'.discharges[u] == s.discharges[u])
            && s.order <= s'.order
  {
  }

  // ----- The proof closure -----

  /** From a proof to its premises. */
  ghost function PremiseArcs(nodes: Nodes): Arcs {
    set i, p | i in nodes && nodes[i].ProofFact? && p in nodes[i].premises :: (i, p)
  }

  /** Premises come earlier in the insertion order, so following them ends. */
  lemma PremiseIsEarlier(digest: Node -> EvidenceId, s: State, i: EvidenceId, p: EvidenceId)
    requires IsSound(digest, s) && IsProof(s.nodes, i) && p in s.nodes[i].premises
    ensures IsProof(s.nodes, p) && 0 <= Position(s, p) < Position(s, i)
  {
    assert IsIndex(s, Position(s, i), i) && p in s.order[..Position(s, i)];
    assert IsIndex(s, Position(s, p), p);
  }

  ghost predicate AllProofs(nodes: Nodes, ids: seq<EvidenceId>) {
    forall i :: i in ids ==> IsProof(nodes, i)
  }

  /** Depth-first postorder: a proof follows its premises, and nothing is listed twice. */
  ghost function PostOrder(digest: Node -> EvidenceId, s: State, i: EvidenceId, done: seq<EvidenceId>): seq<EvidenceId>
    requires IsSound(digest, s) && IsProof(s.nodes, i)
    decreases Position(s, i), 1, 0
  {
    if i in done then done else
      PremisesLater(digest, s, i, s.nodes[i].premises, done) + [i]
  }

  ghost function PremisesLater(digest: Node -> EvidenceId, s: State, i: EvidenceId, ids: seq<EvidenceId>,
                               done: seq<EvidenceId>): seq<EvidenceId>
    requires IsSound(digest, s) && IsProof(s.nodes, i) && forall p :: p in ids ==> p in s.nodes[i].premises
    decreases Position(s, i), 0, |ids|
  {
    if ids == [] then done else
      PremiseIsEarlier(digest, s, i, ids[0]);
      PremisesLater(digest, s, i, ids[1..], PostOrder(digest, s, ids[0], done))
  }

  ghost function ClosureOf(digest: Node -> EvidenceId, s: State, roots: seq<EvidenceId>, done: seq<EvidenceId>)
    : seq<EvidenceId>
    requires IsSound(digest, s) && AllProofs(s.nodes, roots)
  {
    if roots == [] then done else ClosureOf(digest, s, roots[1..], PostOrder(digest, s, roots[0], done))
  }

  /** Distinct proofs, each after its premises. */
  ghost predicate IsClosedList(nodes: Nodes, ids: seq<EvidenceId>) {
    && AllProofs(nodes, ids)
    && (forall k, m :: 0 <= k < m < |ids| ==> ids[k] != ids[m])
    && (forall k, p :: 0 <= k < |ids| && ids[k] in nodes && nodes[ids[k]].ProofFact? && p in nodes[ids[k]].premises ==>
          p in ids[..k])
  }

  /** What visiting i adds to the list. */
  ghost predicate Extends(s: State, i: EvidenceId, bound: int, done: seq<EvidenceId>, ids: seq<EvidenceId>) {
    && done <= ids && IsClosedList(s.nodes, ids)
    && (forall x :: x in ids ==> x in done || (Leads(PremiseArcs(s.nodes), i, x) && Position(s, x) <= bound))
  }

  lemma AppendProof(nodes: Nodes, ids: seq<EvidenceId>, i: EvidenceId)
    requires IsClosedList(nodes, ids) && IsProof(nodes, i) && i !in ids
    requires forall p :: p in nodes[i].premises ==> p in ids
    ensures IsClosedList(nodes, ids + [i])
  {
    var ids' := ids + [i];
    forall k | 0 <= k < |ids'| ensures ids'[..k] == ids[..k] {
    }
    assert ids[..|ids|] == ids;
  }

  lemma {:induction false} PostOrderExtends(digest: Node -> EvidenceId, s: State, i: EvidenceId, done: seq<EvidenceId>)
    requires IsSound(digest, s) && IsProof(s.nodes, i) && IsClosedList(s.nodes, done)
    ensures Extends(s, i, Position(s, i), done, PostOrder(digest, s, i, done)) && i in PostOrder(digest, s, i, done)
    decreases Position(s, i), 1, 0
  {
    if i !in done {
      var ids := PremisesLater(digest, s, i, s.nodes[i].premises, done);
      PremisesExtend(digest, s, i, s.nodes[i].premises, done);
      AppendProof(s.nodes, ids, i);
      assert PostOrder(digest, s, i, done) == ids + [i];
    }
  }

  lemma {:induction false} PremisesExtend(digest: Node -> EvidenceId, s: State, i: EvidenceId, ids: seq<EvidenceId>,
                                          done: seq<EvidenceId>)
    requires IsSound(digest, s) && IsProof(s.nodes, i) && IsClosedList(s.nodes, done)
    requires forall p :: p in ids ==> p in s.nodes[i].premises
    ensures Extends(s, i, Position(s, i) - 1, done, PremisesLater(digest, s, i, ids, done))
    ensures forall p :: p in ids ==> p in PremisesLater(digest, s, i, ids, done)
    decreases Position(s, i), 0, |ids|
  {
    if ids != [] {
      var p := ids[0];
      PremiseIsEarlier(digest, s, i, p);
      PostOrderExtends(digest, s, p, done);
      var next := PostOrder(digest, s, p, done);
      PremisesExtend(digest, s, i, ids[1..], next);
      forall x | x in next && x !in done ensures Leads(PremiseArcs(s.nodes), i, x) {
        LeadsVia(PremiseArcs(s.nodes), i, p, x);
      }
    }
  }

  lemma LeadsVia(arcs: Arcs, i: nat, p: nat, x: nat)
    requires (i, p) in arcs && Leads(arcs, p, x)
    ensures Leads(arcs, i, x)
  {
    EdgeReaches(arcs, i, p);
    if p != x { ReachesTransitive(arcs, i, p, x); }
  }

  lemma {:induction false} ClosureExtends(digest: Node -> EvidenceId, s: State, roots: seq<EvidenceId>,
                                          done: seq<EvidenceId>)
    requires IsSound(digest, s) && AllProofs(s.nodes, roots) && IsClosedList(s.nodes, done)
    ensures IsClosedList(s.nodes, ClosureOf(digest, s, roots, done)) && done <= ClosureOf(digest, s, roots, done)
    ensures forall r :: r in roots ==> r in ClosureOf(digest, s, roots, done)
    ensures forall x :: x in ClosureOf(digest, s, roots, done) ==> x in done || LedFrom(PremiseArcs(s.nodes), roots, x)
  {
    if roots != [] {
      PostOrderExtends(digest, s, roots[0], done);
      ClosureExtends(digest, s, roots[1..], PostOrder(digest, s, roots[0], done));
      forall x | LedFrom(PremiseArcs(s.nodes), roots[1..], x) ensures LedFrom(PremiseArcs(s.nodes), roots, x) {
        var r :| r in roots[1..] && Leads(PremiseArcs(s.nodes), r, x);
        assert r in roots;
      }
    }
  }

  /** A closed list holds everything that its members rest on. */
  lemma ClosedListIsClosed(nodes: Nodes, ids: seq<EvidenceId>, r: EvidenceId, x: EvidenceId)
    requires IsClosedList(nodes, ids) && r in ids && Leads(PremiseArcs(nodes), r, x)
    ensures x in ids
  {
    var inside := set i | i in ids;
    forall e | e in PremiseArcs(nodes) && e.0 in inside ensures e.1 in inside {
      var k :| 0 <= k < |ids| && ids[k] == e.0;
      assert e.1 in ids[..k];
    }
    ClosedSetHolds(PremiseArcs(nodes), inside, r, x);
  }

  /** The closure lists exactly the proofs that the roots rest on, each once, premises before dependents. */
  lemma ProofClosureIsExact(digest: Node -> EvidenceId, s: State, roots: seq<EvidenceId>)
    requires IsSound(digest, s) && AllProofs(s.nodes, roots)
    ensures IsClosedList(s.nodes, ClosureOf(digest, s, roots, []))
    ensures forall x :: x in ClosureOf(digest, s, roots, []) <==> LedFrom(PremiseArcs(s.nodes), roots, x)
  {
    ClosureExtends(digest, s, roots, []);
    var ids := ClosureOf(digest, s, roots, []);
    forall x | LedFrom(PremiseArcs(s.nodes), roots, x) ensures x in ids {
      var r :| r in roots && Leads(PremiseArcs(s.nodes), r, x);
      ClosedListIsClosed(s.nodes, ids, r, x);
    }
  }
}

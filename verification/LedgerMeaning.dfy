/** What the ledger accepts and what observations do to it, by the kinds of its records. */
module LedgerMeaning {
  import opened Events
  import opened Ledger
  import opened Certificate

  /** A record of this kind is stored under the id. */
  predicate HoldsProof(nodes: Nodes, i: EvidenceId) {
    i in nodes && match nodes[i] case ProofFact(_, _, _, _, _, _) => true case _ => false
  }

  predicate HoldsUnknown(nodes: Nodes, i: EvidenceId) {
    i in nodes && match nodes[i] case UnknownFact(_, _, _, _, _) => true case _ => false
  }

  predicate HoldsObservation(nodes: Nodes, i: EvidenceId) {
    i in nodes && match nodes[i] case ObservedFact(_, _, _, _) => true case _ => false
  }

  /** Proofs rest on proofs, Unknowns on static records, and hints on the Unknowns and observations they name. */
  predicate RefersWell(nodes: Nodes, n: Node) {
    match n
    case ProofFact(_, _, _, _, premises, _) => forall p :: p in premises ==> HoldsProof(nodes, p)
    case UnknownFact(_, _, _, _, provenance) =>
      forall p :: p in provenance ==> HoldsProof(nodes, p) || HoldsUnknown(nodes, p)
    case ObservedFact(_, _, _, _) => true
    case DiagnosticHint(_, _, unknowns, observed, _) =>
      && (forall u :: u in unknowns ==> HoldsUnknown(nodes, u))
      && (forall o :: o in observed ==> HoldsObservation(nodes, o))
  }

  /** A record is accepted if its id is the digest of the rest, and it is stored already or new and refers well. It is
      then stored, and listed if it is new; otherwise nothing changes. */
  lemma AdditionByKind(digest: Node -> EvidenceId, s: State, n: Node)
    ensures IsAccepted(digest, s, Add(n))
       <==> n.id == digest(n.(id := 0)) && if n.id in s.nodes then s.nodes[n.id] == n else RefersWell(s.nodes, n)
    ensures Step(digest, s, Add(n))
         == if n.id == digest(n.(id := 0)) && n.id !in s.nodes && RefersWell(s.nodes, n)
            then State(s.nodes[n.id := n], s.order + [n.id], s.discharges) else s
  {
  }

  /** A discharge is accepted if it closes a stored Unknown by a stored proof, both of its scope, and the Unknown was
      not closed in another way. */
  lemma DischargeByKind(digest: Node -> EvidenceId, s: State, d: Discharge)
    ensures IsAccepted(digest, s, Close(d))
       <==> && HoldsUnknown(s.nodes, d.unknownId) && s.nodes[d.unknownId].scope == d.scope
            && HoldsProof(s.nodes, d.proofId) && s.nodes[d.proofId].scope == d.scope
            && (d.unknownId in s.discharges ==> s.discharges[d.unknownId] == d)
    ensures Step(digest, s, Close(d))
         == if IsAccepted(digest, s, Close(d))
            then State(s.nodes, s.order, s.discharges[d.unknownId := d]) else s
  {
  }

  // ----- Observations -----

  /** An observation or a hint is recorded. */
  predicate RecordsObservation(op: Operation) {
    match op
    case Add(ObservedFact(_, _, _, _)) => true
    case Add(DiagnosticHint(_, _, _, _, _)) => true
    case _ => false
  }

  function WithoutObservations(ops: seq<Operation>): seq<Operation> {
    if ops == [] then []
    else
      var n := |ops| - 1;
      WithoutObservations(ops[..n]) + if RecordsObservation(ops[n]) then [] else [ops[n]]
  }

  lemma {:induction false} OthersAreStatic(ops: seq<Operation>)
    ensures StaticPart(ops) == WithoutObservations(ops)
  {
    if ops != [] { OthersAreStatic(ops[..|ops| - 1]); }
  }

  /** Whatever was observed or hinted at: the proofs, Unknowns and discharges of the ledger, the answer to the next
      other operation and the standing of every certificate are as if it had not been. */
  lemma ObservationsChangeNothing(digest: Node -> EvidenceId, ops: seq<Operation>, next: Operation,
                                  c: StaticCertificate, expected: Option<Binding>)
    requires IsInjective(digest)
    ensures var s, t := Run(digest, ops), Run(digest, WithoutObservations(ops));
      && s.discharges == t.discharges
      && (forall i :: HoldsProof(s.nodes, i) || HoldsUnknown(s.nodes, i) ==> i in t.nodes && t.nodes[i] == s.nodes[i])
      && (forall i :: i in t.nodes ==>
            i in s.nodes && t.nodes[i] == s.nodes[i] && (HoldsProof(t.nodes, i) || HoldsUnknown(t.nodes, i)))
      && (!RecordsObservation(next) ==> (IsAccepted(digest, s, next) <==> IsAccepted(digest, t, next)))
      && (IsBackedBy(s.nodes, s.discharges, c, expected) <==> IsBackedBy(t.nodes, t.discharges, c, expected))
  {
    OthersAreStatic(ops);
    StaticRun(digest, ops);
    if !RecordsObservation(next) { DynamicEvidenceNeverDecides(digest, ops, next); }
    var s, t := Run(digest, ops), Run(digest, StaticPart(ops));
    SameValidity(s, t, c, expected);
    ValidIffBacked(s, c, expected);
    ValidIffBacked(t, c, expected);
  }
}

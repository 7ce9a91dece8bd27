/** Static certificates, and why dynamic evidence has no say in them. */
module Certificate {
  import opened Events
  import opened Graphs
  import opened Reachability
  import opened Ledger
  import opened EvidenceStore

  datatype Verdict = SAFE | COUNTEREXAMPLE | UNKNOWN

  datatype Binding = Binding(closure: nat, contractVersion: string, revision: string, scope: string)

  datatype Removal = Removal(event: nat, proofId: EvidenceId, scope: string)

  datatype StaticCertificate = StaticCertificate(
    verdict: Verdict, binding: Binding, roots: seq<EvidenceId>, removals: seq<Removal>, unknowns: seq<EvidenceId>,
      bounded: bool)

  datatype Verification = Verification(closure: seq<EvidenceId>, discharged: seq<EvidenceId>)

  // ----- What a valid certificate is -----

  /** i is a proof that the certificate's roots rest on. */
  ghost predicate InClosure(s: State, c: StaticCertificate, i: EvidenceId) {
    LedFrom(PremiseArcs(s.nodes), c.roots, i)
  }

  predicate Covers(n: Node, event: nat) {
    n.ProofFact? && (event in n.covered || n.subject == Some(event))
  }

  ghost predicate RemovalIsProved(s: State, c: StaticCertificate, r: Removal) {
    && r.scope == c.binding.scope && InClosure(s, c, r.proofId)
    && r.proofId in s.nodes && Covers(s.nodes[r.proofId], r.event)
  }

  /** A declared Unknown is one of this scope, and closed inside the closure unless the verdict leaves it open. */
  ghost predicate UnknownIsSettled(s: State, c: StaticCertificate, u: EvidenceId) {
    && IsUnknown(s.nodes, u) && s.nodes[u].scope == c.binding.scope
    && if u in s.discharges then InClosure(s, c, s.discharges[u].proofId) else c.verdict != SAFE
  }

  ghost predicate IsValid(s: State, c: StaticCertificate, expected: Option<Binding>) {
    && (expected.Some? ==> expected.value == c.binding)
    && AllProofs(s.nodes, c.roots)
    && (forall r :: r in c.removals ==> RemovalIsProved(s, c, r))
    && (forall u :: u in Unresolved(s, Some(c.binding.scope)) ==> u in c.unknowns)
    && (forall u :: u in c.unknowns ==> UnknownIsSettled(s, c, u))
    && !(c.verdict == SAFE && c.bounded)
    && !(c.verdict == COUNTEREXAMPLE && c.unknowns != [])
  }

  function DischargedOf(discharges: map<EvidenceId, Discharge>, unknowns: seq<EvidenceId>): seq<EvidenceId> {
    if unknowns == [] then [] else
      var rest := DischargedOf(discharges, unknowns[..|unknowns| - 1]);
      var u := unknowns[|unknowns| - 1];
      if u in discharges then rest + [u] else rest
  }

  // ----- The verifier -----

  method CheckRemovals(c: StaticCertificate, ledger: EvidenceLedger, closure: set<EvidenceId>) returns (ok: bool)
    requires forall i :: i in closure <==> InClosure(ledger.Contents(), c, i)
    ensures ok <==> forall r :: r in c.removals ==> RemovalIsProved(ledger.Contents(), c, r)
  {
    for k := 0 to |c.removals|
      invariant forall m :: 0 <= m < k ==> RemovalIsProved(ledger.Contents(), c, c.removals[m])
    {
      var r := c.removals[k];
      if r.scope != c.binding.scope || r.proofId !in closure || r.proofId !in ledger.nodes
        || !Covers(ledger.nodes[r.proofId], r.event) {
        assert r in c.removals && !RemovalIsProved(ledger.Contents(), c, r);
        return false;
      }
    }
    ok := true;
  }

  method CheckUnknowns(c: StaticCertificate, ledger: EvidenceLedger, closure: set<EvidenceId>)
    returns (ok: bool, discharged: seq<EvidenceId>)
    requires forall i :: i in closure <==> InClosure(ledger.Contents(), c, i)
    ensures ok <==> forall u :: u in c.unknowns ==> UnknownIsSettled(ledger.Contents(), c, u)
    ensures ok ==> discharged == DischargedOf(ledger.discharges, c.unknowns)
  {
    discharged := [];
    for k := 0 to |c.unknowns|
      invariant forall m :: 0 <= m < k ==> UnknownIsSettled(ledger.Contents(), c, c.unknowns[m])
      invariant discharged == DischargedOf(ledger.discharges, c.unknowns[..k])
    {
      var u := c.unknowns[k];
      assert c.unknowns[..k + 1][..k] == c.unknowns[..k] && u in c.unknowns;
      if !IsUnknown(ledger.nodes, u) || ledger.nodes[u].scope != c.binding.scope {
        return false, discharged;
      }
      if u !in ledger.discharges {
        if c.verdict == SAFE {
          return false, discharged;
        }
        continue;
      }
      if ledger.discharges[u].proofId !in closure {
        assert !UnknownIsSettled(ledger.Contents(), c, u);
        return false, discharged;
      }
      discharged := discharged + [u];
    }
    assert c.unknowns[..|c.unknowns|] == c.unknowns;
    ok := true;
  }

  /** Accepts exactly the valid certificates, and returns their closure. */
  method VerifyStaticCertificate(c: StaticCertificate, ledger: EvidenceLedger, expected: Option<Binding>)
    returns (r: Option<Verification>)
    requires ledger.Valid()
    ensures r.Some? <==> IsValid(ledger.Contents(), c, expected)
    ensures r.Some? <==> IsBackedBy(ledger.nodes, ledger.discharges, c, expected)
    ensures r.Some? ==> r.value.closure == ClosureOf(ledger.digest, ledger.Contents(), c.roots, [])
    ensures r.Some? ==> r.value.discharged == DischargedOf(ledger.discharges, c.unknowns)
    ensures r.Some? ==> forall i :: i in r.value.closure <==> RestsOn(ledger.nodes, c.roots, i)
  {
    ValidIffBacked(ledger.Contents(), c, expected);
    if expected.Some? && c.binding != expected.value {
      return None;
    }
    var proofs := ledger.ProofClosure(c.roots);
    if proofs.Err? {
      return None;
    }
    var closure := set i | i in proofs.value;
    ProofClosureIsExact(ledger.digest, ledger.Contents(), c.roots);
    var removalsOk := CheckRemovals(c, ledger, closure);
    if !removalsOk {
      return None;
    }
    var unresolved := ledger.UnresolvedUnknowns(Some(c.binding.scope));
    if exists u :: u in unresolved && u !in c.unknowns {
      return None;
    }
    var unknownsOk, discharged := CheckUnknowns(c, ledger, closure);
    if !unknownsOk {
      return None;
    }
    if c.verdict == SAFE && c.bounded {
      return None;
    }
    if c.verdict == COUNTEREXAMPLE && c.unknowns != [] {
      return None;
    }
    forall i ensures i in closure <==> RestsOn(ledger.nodes, c.roots, i) {
      RestsOnIsClosure(ledger.Contents(), c, i);
    }
    r := Some(Verification(proofs.value, discharged));
  }

  // ----- What acceptance says of the records themselves -----

  /** Starting at one of the ids, each proof of the path names the next one as a premise, up to proof i. */
  ghost predicate RestsOn(nodes: Nodes, roots: seq<EvidenceId>, i: EvidenceId) {
    exists p: seq<EvidenceId> :: IsPremisePath(nodes, p) && p[0] in roots && p[|p| - 1] == i
  }

  ghost predicate IsPremisePath(nodes: Nodes, p: seq<EvidenceId>) {
    && p != []
    && forall k :: 0 <= k < |p| - 1 ==> p[k] in nodes && nodes[p[k]].ProofFact? && p[k + 1] in nodes[p[k]].premises
  }

  /** A proof that the certificate rests on names the removed event, as its subject or among what it covers. */
  ghost predicate HasProof(nodes: Nodes, c: StaticCertificate, r: Removal) {
    && r.scope == c.binding.scope && RestsOn(nodes, c.roots, r.proofId) && r.proofId in nodes
    && match nodes[r.proofId]
       case ProofFact(_, subject, _, _, _, covered) => subject == Some(r.event) || r.event in covered
       case _ => false
  }

  /** Node u is an Unknown of the scope. */
  predicate IsUnknownOf(nodes: Nodes, u: EvidenceId, scope: string) {
    u in nodes && match nodes[u] case UnknownFact(_, _, _, s, _) => s == scope case _ => false
  }

  /** What the certificate says of its Unknowns fits its verdict. */
  ghost predicate SettlesUnknowns(nodes: Nodes, discharges: map<EvidenceId, Discharge>, c: StaticCertificate) {
    && (forall u :: IsUnknownOf(nodes, u, c.binding.scope) && u !in discharges ==> u in c.unknowns)
    && (forall u :: u in c.unknowns ==> IsUnknownOf(nodes, u, c.binding.scope))
    && (forall u :: u in c.unknowns && u in discharges ==> RestsOn(nodes, c.roots, discharges[u].proofId))
    && (c.verdict == SAFE ==> !c.bounded && forall u :: u in c.unknowns ==> u in discharges)
    && (c.verdict == COUNTEREXAMPLE ==> c.unknowns == [])
  }

  ghost predicate IsBackedBy(nodes: Nodes, discharges: map<EvidenceId, Discharge>, c: StaticCertificate,
                             expected: Option<Binding>) {
    && (expected == None || expected == Some(c.binding))
    && (forall i :: i in c.roots ==> i in nodes && nodes[i].ProofFact?)
    && (forall r :: r in c.removals ==> HasProof(nodes, c, r))
    && SettlesUnknowns(nodes, discharges, c)
  }

  lemma PathIsWalk(nodes: Nodes, p: seq<EvidenceId>)
    ensures IsPremisePath(nodes, p) <==> IsWalk(PremiseArcs(nodes), p)
  {
    if IsPremisePath(nodes, p) {
      forall k | 0 <= k < |p| - 1 ensures (p[k], p[k + 1]) in PremiseArcs(nodes) {}
    }
    if IsWalk(PremiseArcs(nodes), p) {
      forall k | 0 <= k < |p| - 1
        ensures p[k] in nodes && nodes[p[k]].ProofFact? && p[k + 1] in nodes[p[k]].premises {
        assert (p[k], p[k + 1]) in PremiseArcs(nodes);
      }
    }
  }

  lemma RestsOnIsClosure(s: State, c: StaticCertificate, i: EvidenceId)
    ensures InClosure(s, c, i) <==> RestsOn(s.nodes, c.roots, i)
  {
    var arcs := PremiseArcs(s.nodes);
    if InClosure(s, c, i) {
      var r :| r in c.roots && Leads(arcs, r, i);
      var p := [i];
      if r != i { p :| WalkFromTo(arcs, p, r, i); }
      PathIsWalk(s.nodes, p);
    }
    if p: seq<EvidenceId> :| IsPremisePath(s.nodes, p) && p[0] in c.roots && p[|p| - 1] == i {
      PathIsWalk(s.nodes, p);
      if |p| > 1 { assert WalkFromTo(arcs, p, p[0], i); }
      assert Leads(arcs, p[0], i);
    }
  }

  lemma RemovalHasProof(s: State, c: StaticCertificate, r: Removal)
    ensures RemovalIsProved(s, c, r) <==> HasProof(s.nodes, c, r)
  {
    RestsOnIsClosure(s, c, r.proofId);
  }

  lemma UnknownsAreSettled(s: State, c: StaticCertificate)
    ensures SettlesUnknowns(s.nodes, s.discharges, c)
       <==> && (forall u :: u in Unresolved(s, Some(c.binding.scope)) ==> u in c.unknowns)
            && (forall u :: u in c.unknowns ==> UnknownIsSettled(s, c, u))
            && !(c.verdict == SAFE && c.bounded) && !(c.verdict == COUNTEREXAMPLE && c.unknowns != [])
  {
    forall u ensures u in Unresolved(s, Some(c.binding.scope))
      <==> IsUnknownOf(s.nodes, u, c.binding.scope) && u !in s.discharges {}
    forall u | u in c.unknowns
      ensures UnknownIsSettled(s, c, u)
         <==> IsUnknownOf(s.nodes, u, c.binding.scope)
              && (u in s.discharges ==> RestsOn(s.nodes, c.roots, s.discharges[u].proofId))
              && (c.verdict == SAFE ==> u in s.discharges) {
      if u in s.discharges { RestsOnIsClosure(s, c, s.discharges[u].proofId); }
    }
  }

  /** A certificate is valid exactly if the stored records back all that it says. */
  lemma ValidIffBacked(s: State, c: StaticCertificate, expected: Option<Binding>)
    ensures IsValid(s, c, expected) <==> IsBackedBy(s.nodes, s.discharges, c, expected)
  {
    forall r | r in c.removals ensures RemovalIsProved(s, c, r) <==> HasProof(s.nodes, c, r) {
      RemovalHasProof(s, c, r);
    }
    UnknownsAreSettled(s, c);
  }

  /** The reported Unknowns are the declared ones that a discharge closes, as often as they are declared. */
  lemma {:induction false} DischargedByCount(discharges: map<EvidenceId, Discharge>, unknowns: seq<EvidenceId>,
                                             u: EvidenceId)
    ensures multiset(DischargedOf(discharges, unknowns))[u] == if u in discharges then multiset(unknowns)[u] else 0
  {
    if unknowns != [] {
      var n := |unknowns| - 1;
      assert unknowns == unknowns[..n] + [unknowns[n]];
      DischargedByCount(discharges, unknowns[..n], u);
    }
  }

  // ----- What SAFE means -----

  /** A verified SAFE certificate leaves nothing of its scope open: every Unknown is closed by a stored
      proof of the same scope, and the declared ones by a proof that the certificate rests on. */
  lemma SafeIsComplete(digest: Node -> EvidenceId, ops: seq<Operation>, c: StaticCertificate,
                       expected: Option<Binding>, u: EvidenceId)
    requires var s := Run(digest, ops);
             IsValid(s, c, expected) && c.verdict == SAFE && IsUnknown(s.nodes, u)
               && s.nodes[u].scope == c.binding.scope
    ensures var s := Run(digest, ops);
            && u in s.discharges && IsProof(s.nodes, s.discharges[u].proofId)
            && s.nodes[s.discharges[u].proofId].scope == c.binding.scope
            && (u in c.unknowns ==> InClosure(s, c, s.discharges[u].proofId))
            && !c.bounded
  {
    var s := Run(digest, ops);
    ReachableIsSound(digest, ops);
    if u !in s.discharges { assert u in Unresolved(s, Some(c.binding.scope)); }
    assert u in c.unknowns ==> UnknownIsSettled(s, c, u);
  }

  /** So nothing of its scope is unresolved. */
  lemma SafeLeavesNothingOpen(digest: Node -> EvidenceId, ops: seq<Operation>, c: StaticCertificate,
                              expected: Option<Binding>)
    requires IsValid(Run(digest, ops), c, expected) && c.verdict == SAFE
    ensures Unresolved(Run(digest, ops), Some(c.binding.scope)) == {}
  {
    forall u | u in Unresolved(Run(digest, ops), Some(c.binding.scope)) ensures false {
      SafeIsComplete(digest, ops, c, expected, u);
    }
  }

  // ----- Dynamic evidence has no influence -----

  predicate IsStatic(op: Operation) {
    op.Add? ==> !op.node.IsDynamic()
  }

  function StaticPart(ops: seq<Operation>): seq<Operation> {
    if ops == [] then [] else
      var last := ops[|ops| - 1];
      StaticPart(ops[..|ops| - 1]) + if IsStatic(last) then [last] else []
  }

  /** t is s without its dynamic nodes. */
  ghost predicate IsStaticPart(s: State, t: State) {
    && (forall i :: i in t.nodes <==> i in s.nodes && !s.nodes[i].IsDynamic())
    && (forall i :: i in t.nodes ==> t.nodes[i] == s.nodes[i])
    && t.discharges == s.discharges
  }

  lemma SameId(digest: Node -> EvidenceId, s: State, n: Node)
    requires IsInjective(digest) && NodesAreTyped(digest, s) && n.id in s.nodes && n.id == ExpectedId(digest, n)
    ensures s.nodes[n.id] == n
  {
    assert Content(s.nodes[n.id]) == Content(n);
  }

  lemma EdgesAreStatic(s: State, t: State, n: Node)
    requires IsStaticPart(s, t) && !n.IsDynamic()
    ensures ValidEdges(s.nodes, n) <==> ValidEdges(t.nodes, n)
  {
    forall i: nat ensures IsProof(s.nodes, i) <==> IsProof(t.nodes, i) {}
  }

  lemma AdditionIsStatic(digest: Node -> EvidenceId, s: State, t: State, n: Node)
    requires IsInjective(digest) && NodesAreTyped(digest, s) && IsStaticPart(s, t) && !n.IsDynamic()
    ensures CanAdd(digest, s, n) <==> CanAdd(digest, t, n)
  {
    EdgesAreStatic(s, t, n);
    if n.id == ExpectedId(digest, n) && n.id in s.nodes { SameId(digest, s, n); }
  }

  lemma ClosingIsStatic(s: State, t: State, d: Discharge)
    requires IsStaticPart(s, t)
    ensures CanClose(s, d) <==> CanClose(t, d)
  {
  }

  /** A static operation is accepted with the dynamic nodes exactly if it is without them. */
  lemma AcceptanceIsStatic(digest: Node -> EvidenceId, s: State, t: State, op: Operation)
    requires IsInjective(digest) && IsSound(digest, s) && IsStaticPart(s, t) && IsStatic(op)
    ensures IsAccepted(digest, s, op) <==> IsAccepted(digest, t, op)
  {
    match op
    case Add(n) => AdditionIsStatic(digest, s, t, n);
    case Close(d) => ClosingIsStatic(s, t, d);
  }

  lemma StaticStep(digest: Node -> EvidenceId, s: State, t: State, op: Operation)
    requires IsInjective(digest) && IsSound(digest, s) && IsStaticPart(s, t)
    ensures IsStatic(op) ==> IsStaticPart(Step(digest, s, op), Step(digest, t, op))
    ensures !IsStatic(op) ==> IsStaticPart(Step(digest, s, op), t)
  {
    if IsStatic(op) { AcceptanceIsStatic(digest, s, t, op); }
  }

  lemma {:induction false} StaticRun(digest: Node -> EvidenceId, ops: seq<Operation>)
    requires IsInjective(digest)
    ensures IsStaticPart(Run(digest, ops), Run(digest, StaticPart(ops)))
  {
    if ops != [] {
      var before, last := ops[..|ops| - 1], ops[|ops| - 1];
      StaticRun(digest, before);
      ReachableIsSound(digest, before);
      StaticStep(digest, Run(digest, before), Run(digest, StaticPart(before)), last);
      assert IsStatic(last) ==> (StaticPart(before) + [last])[..|StaticPart(before)|] == StaticPart(before);
      assert !IsStatic(last) ==> StaticPart(ops) == StaticPart(before);
    }
  }

  /** After any history, each further static operation meets the same answer as if no observation or
      hint had ever been recorded. */
  lemma DynamicEvidenceNeverDecides(digest: Node -> EvidenceId, ops: seq<Operation>, op: Operation)
    requires IsInjective(digest) && IsStatic(op)
    ensures IsAccepted(digest, Run(digest, ops), op) <==> IsAccepted(digest, Run(digest, StaticPart(ops)), op)
  {
    StaticRun(digest, ops);
    ReachableIsSound(digest, ops);
    AcceptanceIsStatic(digest, Run(digest, ops), Run(digest, StaticPart(ops)), op);
  }

  lemma PremisesAreStatic(s: State, t: State)
    requires IsStaticPart(s, t)
    ensures PremiseArcs(s.nodes) == PremiseArcs(t.nodes)
  {
  }

  lemma {:induction false} SamePostOrder(digest: Node -> EvidenceId, s: State, t: State, i: EvidenceId,
                                         done: seq<EvidenceId>)
    requires IsSound(digest, s) && IsSound(digest, t) && IsStaticPart(s, t) && IsProof(s.nodes, i)
    ensures PostOrder(digest, s, i, done) == PostOrder(digest, t, i, done)
    decreases Position(s, i), 1, 0
  {
    if i !in done { SamePremises(digest, s, t, i, s.nodes[i].premises, done); }
  }

  lemma {:induction false} SamePremises(digest: Node -> EvidenceId, s: State, t: State, i: EvidenceId,
                                        ids: seq<EvidenceId>, done: seq<EvidenceId>)
    requires IsSound(digest, s) && IsSound(digest, t) && IsStaticPart(s, t) && IsProof(s.nodes, i)
    requires forall p :: p in ids ==> p in s.nodes[i].premises
    ensures PremisesLater(digest, s, i, ids, done) == PremisesLater(digest, t, i, ids, done)
    decreases Position(s, i), 0, |ids|
  {
    if ids != [] {
      PremiseIsEarlier(digest, s, i, ids[0]);
      SamePostOrder(digest, s, t, ids[0], done);
      SamePremises(digest, s, t, i, ids[1..], PostOrder(digest, s, ids[0], done));
    }
  }

  lemma {:induction false} SameClosure(digest: Node -> EvidenceId, s: State, t: State, roots: seq<EvidenceId>,
                                       done: seq<EvidenceId>)
    requires IsSound(digest, s) && IsSound(digest, t) && IsStaticPart(s, t) && AllProofs(s.nodes, roots)
    ensures AllProofs(t.nodes, roots) && ClosureOf(digest, s, roots, done) == ClosureOf(digest, t, roots, done)
  {
    if roots != [] {
      SamePostOrder(digest, s, t, roots[0], done);
      SameClosure(digest, s, t, roots[1..], PostOrder(digest, s, roots[0], done));
    }
  }

  lemma SameValidity(s: State, t: State, c: StaticCertificate, expected: Option<Binding>)
    requires IsStaticPart(s, t)
    ensures IsValid(s, c, expected) <==> IsValid(t, c, expected)
  {
    PremisesAreStatic(s, t);
    forall i ensures InClosure(s, c, i) <==> InClosure(t, c, i) {}
    forall i ensures IsProof(s.nodes, i) <==> IsProof(t.nodes, i) {}
    assert Unresolved(s, Some(c.binding.scope)) == Unresolved(t, Some(c.binding.scope));
    forall r ensures RemovalIsProved(s, c, r) <==> RemovalIsProved(t, c, r) {}
    forall u ensures UnknownIsSettled(s, c, u) <==> UnknownIsSettled(t, c, u) {}
  }

  /** Deleting every observation and hint from the history changes neither whether a certificate is
      valid nor its closure nor the Unknowns that it discharges. */
  lemma DynamicEvidenceNeverCertifies(digest: Node -> EvidenceId, ops: seq<Operation>, c: StaticCertificate,
                                      expected: Option<Binding>)
    requires IsInjective(digest)
    ensures var s, t := Run(digest, ops), Run(digest, StaticPart(ops));
            && IsSound(digest, s) && IsSound(digest, t)
            && (IsValid(s, c, expected) <==> IsValid(t, c, expected))
            && (IsValid(s, c, expected) ==> ClosureOf(digest, s, c.roots, []) == ClosureOf(digest, t, c.roots, []))
            && DischargedOf(s.discharges, c.unknowns) == DischargedOf(t.discharges, c.unknowns)
  {
    var s, t := Run(digest, ops), Run(digest, StaticPart(ops));
    StaticRun(digest, ops);
    ReachableIsSound(digest, ops);
    ReachableIsSound(digest, StaticPart(ops));
    SameValidity(s, t, c, expected);
    if IsValid(s, c, expected) { SameClosure(digest, s, t, c.roots, []); }
  }
}

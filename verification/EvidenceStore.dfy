/** The ledger object: its methods update the stored nodes and discharges in place. */
module EvidenceStore {
  import opened Events
  import opened Ledger

  datatype LedgerError =
    | IdMismatch
    | DifferentContent
    | BadReference(reference: EvidenceId)
    | NoUnknown
    | NoProof
    | ScopeMismatch
    | ConflictingDischarge
    | NotAProof

  datatype Result<+T> = Ok(value: T) | Err(error: LedgerError)

  class EvidenceLedger {
    const digest: Node -> EvidenceId
    var nodes: Nodes
    var discharges: map<EvidenceId, Discharge>
    ghost var order: seq<EvidenceId>

    ghost function Contents(): State
      reads this
    {
      State(nodes, order, discharges)
    }

    ghost predicate Valid()
      reads this
    {
      IsSound(digest, Contents())
    }

    constructor (digest: Node -> EvidenceId)
      ensures Valid() && Contents() == Empty && this.digest == digest
    {
      this.digest := digest;
      nodes, discharges, order := map[], map[], [];
    }

    /** The first reference of a new node that is missing or has the wrong category. */
    method ValidateEdges(n: Node) returns (bad: Option<EvidenceId>)
      ensures bad.None? <==> ValidEdges(nodes, n)
      ensures bad.Some? ==> bad.value in References(n)
    {
      var stored := nodes;
      match n
      case ProofFact(_, _, _, _, premises, _) =>
        bad := FirstBad(premises, (p: EvidenceId) => IsProof(stored, p));
      case UnknownFact(_, _, _, _, provenance) =>
        bad := FirstBad(provenance, (p: EvidenceId) => p in stored && !stored[p].IsDynamic());
      case ObservedFact(_, _, _, _) =>
        bad := None;
      case DiagnosticHint(_, _, unknownIds, observedIds, _) =>
        bad := FirstBad(unknownIds, (u: EvidenceId) => IsUnknown(stored, u));
        if bad.None? {
          bad := FirstBad(observedIds, (o: EvidenceId) => o in stored && stored[o].ObservedFact?);
        }
    }

    method FirstBad(ids: seq<EvidenceId>, ok: EvidenceId -> bool) returns (bad: Option<EvidenceId>)
      ensures bad.None? <==> forall i :: i in ids ==> ok(i)
      ensures bad.Some? ==> bad.value in ids && !ok(bad.value)
    {
      for k := 0 to |ids|
        invariant forall m :: 0 <= m < k ==> ok(ids[m])
      {
        if !ok(ids[k]) {
          return Some(ids[k]);
        }
      }
      bad := None;
    }

    method AddNode(n: Node) returns (r: Result<EvidenceId>)
      requires Valid()
      modifies this`nodes, this`order
      ensures Valid() && Contents() == Step(digest, old(Contents()), Add(n))
      ensures r.Ok? <==> CanAdd(digest, old(Contents()), n)
      ensures r.Ok? ==> r.value == n.id && n.id in nodes && nodes[n.id] == n
      ensures r == Err(IdMismatch) <==> n.id != ExpectedId(digest, n)
    {
      StepIsSound(digest, Contents(), Add(n));
      if n.id != ExpectedId(digest, n) {
        return Err(IdMismatch);
      }
      if n.id in nodes {
        if nodes[n.id] != n {
          return Err(DifferentContent);
        }
        return Ok(n.id);
      }
      var bad := ValidateEdges(n);
      if bad.Some? {
        return Err(BadReference(bad.value));
      }
      nodes := nodes[n.id := n];
      order := order + [n.id];
      r := Ok(n.id);
    }

    method AddDischarge(d: Discharge) returns (r: Result<()>)
      requires Valid()
      modifies this`discharges
      ensures Valid() && Contents() == Step(digest, old(Contents()), Close(d))
      ensures r.Ok? <==> CanClose(old(Contents()), d)
    {
      StepIsSound(digest, Contents(), Close(d));
      if !IsUnknown(nodes, d.unknownId) {
        return Err(NoUnknown);
      }
      if !IsProof(nodes, d.proofId) {
        return Err(NoProof);
      }
      if d.scope != nodes[d.unknownId].scope || d.scope != nodes[d.proofId].scope {
        return Err(ScopeMismatch);
      }
      if d.unknownId in discharges && discharges[d.unknownId] != d {
        return Err(ConflictingDischarge);
      }
      discharges := discharges[d.unknownId := d];
      r := Ok(());
    }

    /** The Unknowns of a scope that no proof has closed. */
    method UnresolvedUnknowns(scope: Option<string>) returns (unknowns: set<EvidenceId>)
      ensures unknowns == Unresolved(Contents(), scope)
    {
      unknowns := set i | i in nodes && nodes[i].UnknownFact? && (scope.None? || nodes[i].scope == scope.value)
        && i !in discharges;
    }

    /** Visits i after its premises; visited also holds the proofs whose visit is still under way. */
    method Visit(i: EvidenceId, visited: set<EvidenceId>, done: seq<EvidenceId>, ghost open: set<EvidenceId>)
      returns (ok: bool, visited': set<EvidenceId>, done': seq<EvidenceId>)
      requires Valid() && visited == (set x | x in done) + open && AllProofs(nodes, done)
      requires forall o :: o in open ==>
        IsProof(nodes, o) && (IsProof(nodes, i) ==> Position(Contents(), o) > Position(Contents(), i))
      ensures ok <==> IsProof(nodes, i)
      ensures ok ==> done' == PostOrder(digest, Contents(), i, done) && AllProofs(nodes, done')
      ensures ok ==> visited' == (set x | x in done') + open
      decreases if IsProof(nodes, i) then Position(Contents(), i) else -1
    {
      ok, visited', done' := true, visited, done;
      if i in visited {
        return;
      }
      visited' := visited' + {i};
      if !IsProof(nodes, i) {
        ok := false;
        return;
      }
      var premises := nodes[i].premises;
      for k := 0 to |premises|
        invariant visited' == (set x | x in done') + (open + {i}) && AllProofs(nodes, done')
        invariant PremisesLater(digest, Contents(), i, premises[k..], done') == PremisesLater(digest, Contents(), i,
          premises, done)
      {
        PremiseIsEarlier(digest, Contents(), i, premises[k]);
        assert premises[k..] == [premises[k]] + premises[k + 1..];
        ok, visited', done' := Visit(premises[k], visited', done', open + {i});
      }
      done' := done' + [i];
      ok := true;
    }

    /** All proofs that the roots rest on; fails exactly when some root is no stored proof. */
    method ProofClosure(roots: seq<EvidenceId>) returns (r: Result<seq<EvidenceId>>)
      requires Valid()
      ensures r.Ok? <==> AllProofs(nodes, roots)
      ensures r.Ok? ==> r.value == ClosureOf(digest, Contents(), roots, [])
    {
      var visited: set<EvidenceId>, done: seq<EvidenceId> := {}, [];
      for k := 0 to |roots|
        invariant AllProofs(nodes, roots[..k]) && AllProofs(nodes, done) && visited == set x | x in done
        invariant AllProofs(nodes, roots) ==>
                    ClosureOf(digest, Contents(), roots[k..], done) == ClosureOf(digest, Contents(), roots, [])
      {
        assert roots[k..] == [roots[k]] + roots[k + 1..];
        assert roots[..k + 1] == roots[..k] + [roots[k]];
        var ok;
        ok, visited, done := Visit(roots[k], visited, done, {});
        if !ok {
          return Err(NotAProof);
        }
      }
      assert roots[..|roots|] == roots;
      r := Ok(done);
    }
  }

  ghost function Unresolved(s: State, scope: Option<string>): set<EvidenceId> {
    set i | i in s.nodes && s.nodes[i].UnknownFact? && (scope.None? || s.nodes[i].scope == scope.value)
      && i !in s.discharges
  }

  // ----- What stays unresolved, in terms of the history -----

  ghost predicate HasScope(n: Node, scope: Option<string>)
    requires n.UnknownFact?
  {
    scope.None? || n.scope == scope.value
  }

  /** Operation k of the history was accepted. */
  ghost predicate WasAccepted(digest: Node -> EvidenceId, ops: seq<Operation>, k: nat)
    requires k < |ops|
  {
    IsAccepted(digest, Run(digest, ops[..k]), ops[k])
  }

  /** Operation k added the Unknown u, in the given scope. */
  ghost predicate Raises(digest: Node -> EvidenceId, ops: seq<Operation>, k: nat, u: EvidenceId,
                         scope: Option<string>) {
    && k < |ops| && WasAccepted(digest, ops, k) && ops[k].Add? && ops[k].node.UnknownFact? && ops[k].node.id == u
    && HasScope(ops[k].node, scope)
  }

  /** Operation k closed the Unknown u. */
  ghost predicate Settles(digest: Node -> EvidenceId, ops: seq<Operation>, k: nat, u: EvidenceId) {
    k < |ops| && WasAccepted(digest, ops, k) && ops[k].Close? && ops[k].discharge.unknownId == u
  }

  lemma SameBefore(digest: Node -> EvidenceId, ops: seq<Operation>, u: EvidenceId, scope: Option<string>)
    requires ops != []
    ensures var n := |ops| - 1;
            && (forall k: nat :: k < n ==> (Raises(digest, ops, k, u, scope)
              <==> Raises(digest, ops[..n], k, u, scope)))
            && (forall k: nat :: k < n ==> (Settles(digest, ops, k, u) <==> Settles(digest, ops[..n], k, u)))
  {
    var n := |ops| - 1;
    forall k: nat | k < n ensures ops[..n][..k] == ops[..k] && ops[..n][k] == ops[k] {}
  }

  lemma StepChangesUnresolved(digest: Node -> EvidenceId, s: State, op: Operation, u: EvidenceId, scope: Option<string>)
    requires IsSound(digest, s)
    ensures var t := Step(digest, s, op);
            && (IsUnknown(t.nodes, u) && HasScope(t.nodes[u], scope)
                <==> (IsUnknown(s.nodes, u) && HasScope(s.nodes[u], scope))
                     || (IsAccepted(digest, s, op) && op.Add? && op.node.UnknownFact? && op.node.id == u
                       && HasScope(op.node, scope)))
            && (u in t.discharges
                <==> u in s.discharges || (IsAccepted(digest, s, op) && op.Close? && op.discharge.unknownId == u))
  {
  }

  lemma {:induction false} StoredByHistory(digest: Node -> EvidenceId, ops: seq<Operation>, u: EvidenceId,
                                           scope: Option<string>)
    ensures var s := Run(digest, ops);
            && (IsUnknown(s.nodes, u) && HasScope(s.nodes[u], scope)
              <==> exists k: nat :: Raises(digest, ops, k, u, scope))
            && (u in s.discharges <==> exists k: nat :: Settles(digest, ops, k, u))
  {
    if ops != [] {
      var n := |ops| - 1;
      StoredByHistory(digest, ops[..n], u, scope);
      ReachableIsSound(digest, ops[..n]);
      StepChangesUnresolved(digest, Run(digest, ops[..n]), ops[n], u, scope);
      SameBefore(digest, ops, u, scope);
      if k: nat :| Raises(digest, ops[..n], k, u, scope) { assert Raises(digest, ops, k, u, scope); }
      if k: nat :| Raises(digest, ops, k, u, scope) { assert k == n || Raises(digest, ops[..n], k, u, scope); }
      if k: nat :| Settles(digest, ops[..n], k, u) { assert Settles(digest, ops, k, u); }
      if k: nat :| Settles(digest, ops, k, u) { assert k == n || Settles(digest, ops[..n], k, u); }
      assert Raises(digest, ops, n, u, scope) || !Raises(digest, ops, n, u, scope);
      assert Settles(digest, ops, n, u) || !Settles(digest, ops, n, u);
    }
  }

  /** After any history, an Unknown is unresolved exactly if it was accepted in the scope and no discharge of it
      was ever accepted, before or after anything else. */
  lemma UnresolvedByHistory(digest: Node -> EvidenceId, ops: seq<Operation>, u: EvidenceId, scope: Option<string>)
    ensures u in Unresolved(Run(digest, ops), scope)
       <==> (exists k: nat :: Raises(digest, ops, k, u, scope)) && !exists k: nat :: Settles(digest, ops, k, u)
  {
    StoredByHistory(digest, ops, u, scope);
  }
}

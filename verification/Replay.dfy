/** Rebuilding a ledger from a snapshot of its nodes and discharges. */
module Replay {
  import opened Ledger
  import opened EvidenceStore

  // ----- Legal orders -----

  /** Adding the nodes one after the other to an empty ledger. */
  ghost function Built(digest: Node -> EvidenceId, order: seq<Node>): State {
    if order == [] then Empty else Step(digest, Built(digest, order[..|order| - 1]), Add(order[|order| - 1]))
  }

  ghost predicate IsLegal(digest: Node -> EvidenceId, order: seq<Node>) {
    forall k :: 0 <= k < |order| ==> CanAdd(digest, Built(digest, order[..k]), order[k])
  }

  /** The order lists exactly the given nodes. */
  ghost predicate ListsNodes(all: Nodes, order: seq<Node>) {
    && (forall n :: n in order ==> n.id in all && all[n.id] == n)
    && (forall i :: i in all ==> all[i] in order)
  }

  ghost predicate IsLegalOrder(digest: Node -> EvidenceId, all: Nodes, order: seq<Node>) {
    ListsNodes(all, order) && IsLegal(digest, order)
  }

  ghost predicate HasLegalOrder(digest: Node -> EvidenceId, all: Nodes) {
    exists order :: IsLegalOrder(digest, all, order)
  }

  /** Later entries of a snapshot win, as in a dictionary built from them. */
  function ById(nodes: seq<Node>): (all: Nodes)
    ensures forall i :: i in all ==> all[i].id == i && all[i] in nodes
    ensures forall n :: n in nodes ==> n.id in all
  {
    if nodes == [] then map[] else
      var last := nodes[|nodes| - 1];
      ById(nodes[..|nodes| - 1])[last.id := last]
  }

  lemma {:induction false} BuiltHoldsOnly(digest: Node -> EvidenceId, order: seq<Node>, i: EvidenceId)
    requires i in Built(digest, order).nodes
    ensures Built(digest, order).nodes[i] in order && Built(digest, order).nodes[i].id == i
  {
    if order != [] {
      var before := order[..|order| - 1];
      if i in Built(digest, before).nodes { BuiltHoldsOnly(digest, before, i); }
    }
  }

  lemma AddedStays(digest: Node -> EvidenceId, s: State, n: Node, m: Node)
    requires m.id in s.nodes && s.nodes[m.id] == m
    ensures var s' := Step(digest, s, Add(n)); m.id in s'.nodes && s'.nodes[m.id] == m
  {
  }

  lemma {:induction false} BuiltHolds(digest: Node -> EvidenceId, order: seq<Node>, k: nat)
    requires IsLegal(digest, order) && k < |order|
    ensures order[k].id in Built(digest, order).nodes && Built(digest, order).nodes[order[k].id] == order[k]
  {
    var n := |order| - 1;
    assert CanAdd(digest, Built(digest, order[..n]), order[n]);
    if k < n {
      LegalPrefix(digest, order, n);
      BuiltHolds(digest, order[..n], k);
      AddedStays(digest, Built(digest, order[..n]), order[n], order[k]);
    }
  }

  lemma LegalPrefix(digest: Node -> EvidenceId, order: seq<Node>, n: nat)
    requires IsLegal(digest, order) && n <= |order|
    ensures IsLegal(digest, order[..n])
  {
    forall k | 0 <= k < n ensures CanAdd(digest, Built(digest, order[..n][..k]), order[..n][k]) {
      assert order[..n][..k] == order[..k];
      assert CanAdd(digest, Built(digest, order[..k]), order[k]);
    }
  }

  lemma ExtendLegal(digest: Node -> EvidenceId, order: seq<Node>, n: Node)
    requires IsLegal(digest, order) && CanAdd(digest, Built(digest, order), n)
    ensures IsLegal(digest, order + [n]) && Built(digest, order + [n]) == Step(digest, Built(digest, order), Add(n))
  {
    var order' := order + [n];
    assert order'[..|order|] == order;
    forall k | 0 <= k < |order'| ensures CanAdd(digest, Built(digest, order'[..k]), order'[k]) {
      if k < |order| {
        assert order'[..k] == order[..k];
        assert CanAdd(digest, Built(digest, order[..k]), order[k]);
      }
    }
  }

  // ----- A stuck replay has no legal order -----

  lemma MoreNodesSuffice(fewer: Nodes, more: Nodes, n: Node)
    requires ValidEdges(fewer, n) && forall i :: i in fewer ==> i in more && more[i] == fewer[i]
    ensures ValidEdges(more, n)
  {
  }

  lemma FirstPending(order: seq<Node>, pending: Nodes) returns (k: nat)
    requires exists n :: n in order && n.id in pending
    ensures k < |order| && order[k].id in pending && forall m :: 0 <= m < k ==> order[m].id !in pending
  {
    k := 0;
    while order[k].id !in pending
      invariant k < |order| && forall m :: 0 <= m < k ==> order[m].id !in pending
      invariant exists m :: k <= m < |order| && order[m].id in pending
      decreases |order| - k
    {
      k := k + 1;
    }
  }

  /** The nodes are split between the ledger and the pending ones. */
  ghost predicate IsSplit(all: Nodes, s: State, pending: Nodes) {
    && (forall i :: i in all <==> i in s.nodes || i in pending)
    && (forall i :: i in s.nodes ==> i !in pending && i in all && s.nodes[i] == all[i])
    && (forall i :: i in pending ==> i in all && pending[i] == all[i])
    && (forall i :: i in all ==> all[i].id == i)
  }

  ghost predicate AllRejected(digest: Node -> EvidenceId, s: State, pending: Nodes) {
    forall i :: i in pending ==> !CanAdd(digest, s, pending[i])
  }

  lemma StuckHasNoOrder(digest: Node -> EvidenceId, all: Nodes, s: State, pending: Nodes, order: seq<Node>)
    requires IsSplit(all, s, pending) && pending != map[] && AllRejected(digest, s, pending)
    ensures !IsLegalOrder(digest, all, order)
  {
    if ListsNodes(all, order) && IsLegal(digest, order) {
      var i :| i in pending;
      assert all[i] in order && all[i].id in pending;
      var k := FirstPending(order, pending);
      FirstPendingFits(digest, all, s, pending, order, k);
    }
  }

  /** The first pending node of a legal order could be added. */
  lemma FirstPendingFits(digest: Node -> EvidenceId, all: Nodes, s: State, pending: Nodes, order: seq<Node>, k: nat)
    requires IsSplit(all, s, pending) && IsLegalOrder(digest, all, order) && k < |order|
    requires order[k].id in pending && forall m :: 0 <= m < k ==> order[m].id !in pending
    ensures CanAdd(digest, s, pending[order[k].id])
  {
    var n, before := order[k], Built(digest, order[..k]);
    assert CanAdd(digest, before, n);
    forall i | i in before.nodes ensures i in s.nodes && s.nodes[i] == before.nodes[i] {
      BuiltHoldsOnly(digest, order[..k], i);
      var m :| 0 <= m < k && order[m] == before.nodes[i];
    }
    MoreNodesSuffice(before.nodes, s.nodes, n);
  }

  // ----- The node phase -----

  ghost predicate ReplayInv(digest: Node -> EvidenceId, all: Nodes, s: State, pending: Nodes, added: seq<Node>) {
    IsSplit(all, s, pending) && s == Built(digest, added) && IsLegal(digest, added)
  }

  lemma AddPending(digest: Node -> EvidenceId, all: Nodes, s: State, pending: Nodes, added: seq<Node>, i: EvidenceId)
    requires ReplayInv(digest, all, s, pending, added) && i in pending && CanAdd(digest, s, pending[i])
    ensures ReplayInv(digest, all, Step(digest, s, Add(pending[i])), pending - {i}, added + [pending[i]])
  {
    ExtendLegal(digest, added, pending[i]);
  }

  lemma EverythingAdded(digest: Node -> EvidenceId, all: Nodes, s: State, added: seq<Node>)
    requires ReplayInv(digest, all, s, map[], added)
    ensures s.nodes == all && HasLegalOrder(digest, all)
  {
    forall n | n in added ensures n.id in all && all[n.id] == n {
      var k :| 0 <= k < |added| && added[k] == n;
      BuiltHolds(digest, added, k);
    }
    forall i | i in all ensures all[i] in added {
      BuiltHoldsOnly(digest, added, i);
    }
    assert IsLegalOrder(digest, all, added);
  }

  /** What is pending and was tried in this pass was rejected. */
  ghost predicate TriedAreRejected(digest: Node -> EvidenceId, s: State, pending: Nodes, left: set<EvidenceId>) {
    forall i :: i in pending && i !in left ==> !CanAdd(digest, s, pending[i])
  }

  /** One pass tries every pending node. */
  method ReplayPass(ledger: EvidenceLedger, all: Nodes, before: Nodes, ghost addedBefore: seq<Node>)
    returns (pending: Nodes, progressed: bool, ghost added: seq<Node>)
    requires ledger.Valid() && ledger.discharges == map[]
    requires ReplayInv(ledger.digest, all, ledger.Contents(), before, addedBefore)
    modifies ledger
    ensures ledger.Valid() && ledger.discharges == map[]
    ensures ReplayInv(ledger.digest, all, ledger.Contents(), pending, added)
    ensures if progressed then pending.Keys < before.Keys
            else pending == before && AllRejected(ledger.digest, ledger.Contents(), pending)
  {
    pending, progressed, added := before, false, addedBefore;
    var left := before.Keys;
    while left != {}
      invariant ledger.Valid() && ledger.discharges == map[]
      invariant ReplayInv(ledger.digest, all, ledger.Contents(), pending, added)
      invariant left <= pending.Keys <= before.Keys
      invariant progressed ==> pending.Keys < before.Keys
      invariant !progressed ==> pending == before && TriedAreRejected(ledger.digest, ledger.Contents(), pending, left)
    {
      var i :| i in left;
      left := left - {i};
      ghost var s := ledger.Contents();
      var r := ledger.AddNode(pending[i]);
      if r.Ok? {
        AddPending(ledger.digest, all, s, pending, added, i);
        added := added + [pending[i]];
        pending := pending - {i};
        progressed := true;
      }
    }
  }

  lemma StuckForGood(digest: Node -> EvidenceId, all: Nodes, s: State, pending: Nodes, added: seq<Node>)
    requires ReplayInv(digest, all, s, pending, added) && pending != map[] && AllRejected(digest, s, pending)
    ensures !HasLegalOrder(digest, all)
  {
    forall order ensures !IsLegalOrder(digest, all, order) {
      StuckHasNoOrder(digest, all, s, pending, order);
    }
  }

  /** Passes over the pending nodes until all are added or a pass adds none. */
  method ReplayNodes(ledger: EvidenceLedger, all: Nodes) returns (ok: bool)
    requires ledger.Valid() && ledger.Contents() == Empty && forall i :: i in all ==> all[i].id == i
    modifies ledger
    ensures ledger.Valid() && ledger.discharges == map[]
    ensures ok <==> HasLegalOrder(ledger.digest, all)
    ensures ok ==> ledger.nodes == all
  {
    var pending := all;
    ghost var added: seq<Node> := [];
    while pending != map[]
      invariant ledger.Valid() && ledger.discharges == map[]
      invariant ReplayInv(ledger.digest, all, ledger.Contents(), pending, added)
      decreases pending.Keys
    {
      var progressed;
      pending, progressed, added := ReplayPass(ledger, all, pending, added);
      if !progressed {
        StuckForGood(ledger.digest, all, ledger.Contents(), pending, added);
        return false;
      }
    }
    EverythingAdded(ledger.digest, all, ledger.Contents(), added);
    ok := true;
  }

  // ----- The discharge phase -----

  /** Every discharge fits the nodes, and no Unknown is closed in two ways. */
  ghost predicate DischargesFit(all: Nodes, discharges: seq<Discharge>) {
    && (forall d :: d in discharges ==> CanClose(State(all, [], map[]), d))
    && (forall d, e :: d in discharges && e in discharges && d.unknownId == e.unknownId ==> d == e)
  }

  ghost predicate Replayed(discharges: seq<Discharge>, n: nat, stored: map<EvidenceId, Discharge>) {
    && (forall u :: u in stored ==> exists k ::
      0 <= k < n <= |discharges| && discharges[k] == stored[u] && stored[u].unknownId == u)
    && (forall k :: 0 <= k < n <= |discharges| ==>
      discharges[k].unknownId in stored && stored[discharges[k].unknownId] == discharges[k])
  }

  lemma NextReplayed(discharges: seq<Discharge>, n: nat, stored: map<EvidenceId, Discharge>)
    requires n < |discharges| && Replayed(discharges, n, stored)
    requires discharges[n].unknownId in stored ==> stored[discharges[n].unknownId] == discharges[n]
    ensures Replayed(discharges, n + 1, stored[discharges[n].unknownId := discharges[n]])
  {
    var stored' := stored[discharges[n].unknownId := discharges[n]];
    forall u | u in stored' ensures exists k ::
      0 <= k < n + 1 && discharges[k] == stored'[u] && stored'[u].unknownId == u {
      if u == discharges[n].unknownId {
        assert discharges[n] == stored'[u];
      } else {
        var k :| 0 <= k < n && discharges[k] == stored[u] && stored[u].unknownId == u;
      }
    }
  }

  /** The first n discharges fit the nodes and are stored. */
  ghost predicate DischargesSoFar(all: Nodes, discharges: seq<Discharge>, n: nat, stored: map<EvidenceId, Discharge>) {
    && n <= |discharges| && Replayed(discharges, n, stored)
    && forall k :: 0 <= k < n ==> CanClose(State(all, [], map[]), discharges[k])
  }

  lemma NextDischarge(s: State, discharges: seq<Discharge>, n: nat)
    requires n < |discharges| && DischargesSoFar(s.nodes, discharges, n, s.discharges) && CanClose(s, discharges[n])
    ensures DischargesSoFar(s.nodes, discharges, n + 1, s.discharges[discharges[n].unknownId := discharges[n]])
  {
    NextReplayed(discharges, n, s.discharges);
  }

  method ReplayNext(ledger: EvidenceLedger, discharges: seq<Discharge>, n: nat) returns (ok: bool)
    requires ledger.Valid() && n < |discharges| && DischargesSoFar(ledger.nodes, discharges, n, ledger.discharges)
    modifies ledger`discharges
    ensures ledger.Valid()
    ensures if ok then DischargesSoFar(ledger.nodes, discharges, n + 1, ledger.discharges)
      else !DischargesFit(ledger.nodes, discharges)
  {
    ghost var s := ledger.Contents();
    var r := ledger.AddDischarge(discharges[n]);
    ok := r.Ok?;
    if ok { NextDischarge(s, discharges, n); } else { ConflictDoesNotFit(s, discharges, n); }
  }

  /** Given all nodes, the discharges are accepted one by one exactly if they fit. */
  method ReplayDischarges(ledger: EvidenceLedger, discharges: seq<Discharge>) returns (ok: bool)
    requires ledger.Valid() && ledger.discharges == map[]
    modifies ledger`discharges
    ensures ledger.Valid()
    ensures ok <==> DischargesFit(ledger.nodes, discharges)
    ensures ok ==> Replayed(discharges, |discharges|, ledger.discharges)
  {
    for n := 0 to |discharges|
      invariant ledger.Valid() && DischargesSoFar(ledger.nodes, discharges, n, ledger.discharges)
    {
      ok := ReplayNext(ledger, discharges, n);
      if !ok {
        return;
      }
    }
    AcceptedFit(ledger.nodes, discharges, ledger.discharges);
    ok := true;
  }

  lemma ConflictDoesNotFit(s: State, discharges: seq<Discharge>, n: nat)
    requires n < |discharges| && Replayed(discharges, n, s.discharges) && !CanClose(s, discharges[n])
    ensures !DischargesFit(s.nodes, discharges)
  {
    var d := discharges[n];
    if d.unknownId in s.discharges && s.discharges[d.unknownId] != d {
      var k :| 0 <= k < n && discharges[k] == s.discharges[d.unknownId];
      assert discharges[k] in discharges && discharges[k].unknownId == d.unknownId;
    } else {
      assert d in discharges && !CanClose(State(s.nodes, [], map[]), d);
    }
  }

  lemma AcceptedFit(all: Nodes, discharges: seq<Discharge>, stored: map<EvidenceId, Discharge>)
    requires Replayed(discharges, |discharges|, stored)
    requires forall k :: 0 <= k < |discharges| ==> CanClose(State(all, [], map[]), discharges[k])
    ensures DischargesFit(all, discharges)
  {
  }

  /** A snapshot is replayed successfully exactly if some order adds all its nodes legally and its
      discharges fit, whatever order the snapshot gives them in. */
  method ReplaySnapshot(digest: Node -> EvidenceId, nodes: seq<Node>, discharges: seq<Discharge>)
    returns (ok: bool, ledger: EvidenceLedger)
    ensures fresh(ledger) && ledger.Valid() && ledger.digest == digest
    ensures ok <==> HasLegalOrder(digest, ById(nodes)) && DischargesFit(ById(nodes), discharges)
    ensures ok ==> ledger.nodes == ById(nodes) && Replayed(discharges, |discharges|, ledger.discharges)
  {
    ledger := new EvidenceLedger(digest);
    ok := ReplayNodes(ledger, ById(nodes));
    if ok {
      ok := ReplayDischarges(ledger, discharges);
    }
  }

  // ----- Replaying a ledger rebuilds it -----

  /** A snapshot that lists what a ledger holds. */
  ghost predicate IsSnapshot(s: State, nodes: seq<Node>, discharges: seq<Discharge>) {
    && (forall n :: n in nodes ==> n.id in s.nodes && s.nodes[n.id] == n)
    && (forall i :: i in s.nodes ==> s.nodes[i] in nodes)
    && (forall d :: d in discharges ==> d.unknownId in s.discharges && s.discharges[d.unknownId] == d)
    && (forall u :: u in s.discharges ==> s.discharges[u] in discharges)
  }

  ghost function InOrder(s: State, n: nat): seq<Node>
    requires n <= |s.order| && forall i :: i in s.order ==> i in s.nodes
  {
    seq(n, k requires 0 <= k < n => s.nodes[s.order[k]])
  }

  lemma FewerNodesSuffice(s: State, k: nat, fewer: Nodes)
    requires OrderIsTopological(s) && k < |s.order| && s.order[k] in s.nodes && ValidEdges(s.nodes, s.nodes[s.order[k]])
    requires forall i :: i in s.order[..k] ==> i in fewer && i in s.nodes && fewer[i] == s.nodes[i]
    ensures ValidEdges(fewer, s.nodes[s.order[k]])
  {
    assert IsIndex(s, k, s.order[k]);
    assert forall r :: r in References(s.nodes[s.order[k]]) ==> r in s.order[..k];
  }

  ghost predicate HoldsPrefix(s: State, n: nat, built: Nodes)
    requires n <= |s.order|
  {
    forall i :: i in s.order[..n] ==> i in built && i in s.nodes && built[i] == s.nodes[i]
  }

  lemma NextInOrder(digest: Node -> EvidenceId, s: State, k: nat, built: State)
    requires IsSound(digest, s) && k < |s.order| && HoldsPrefix(s, k, built.nodes)
    requires forall i :: i in built.nodes ==> i in s.nodes && built.nodes[i] == s.nodes[i]
    ensures s.order[k] in s.nodes && CanAdd(digest, built, s.nodes[s.order[k]])
    ensures HoldsPrefix(s, k + 1, Step(digest, built, Add(s.nodes[s.order[k]])).nodes)
  {
    assert s.order[k] in s.order;
    FewerNodesSuffice(s, k, built.nodes);
    assert s.order[..k + 1] == s.order[..k] + [s.order[k]];
  }

  /** The order of insertion is a legal order. */
  lemma {:induction false} InsertionIsLegal(digest: Node -> EvidenceId, s: State, n: nat)
    requires IsSound(digest, s) && n <= |s.order|
    ensures IsLegal(digest, InOrder(s, n)) && HoldsPrefix(s, n, Built(digest, InOrder(s, n)).nodes)
  {
    if n > 0 {
      var k := n - 1;
      InsertionIsLegal(digest, s, k);
      forall i | i in Built(digest, InOrder(s, k)).nodes
        ensures i in s.nodes && Built(digest, InOrder(s, k)).nodes[i] == s.nodes[i] {
        BuiltIsPart(digest, s, k, i);
      }
      NextInOrder(digest, s, k, Built(digest, InOrder(s, k)));
      ExtendLegal(digest, InOrder(s, k), s.nodes[s.order[k]]);
      assert InOrder(s, n) == InOrder(s, k) + [s.nodes[s.order[k]]];
    }
  }

  lemma BuiltIsPart(digest: Node -> EvidenceId, s: State, k: nat, i: EvidenceId)
    requires IsSound(digest, s) && k <= |s.order| && i in Built(digest, InOrder(s, k)).nodes
    ensures i in s.nodes && Built(digest, InOrder(s, k)).nodes[i] == s.nodes[i]
  {
    BuiltHoldsOnly(digest, InOrder(s, k), i);
  }

  lemma SnapshotById(digest: Node -> EvidenceId, s: State, nodes: seq<Node>, discharges: seq<Discharge>)
    requires IsSound(digest, s) && IsSnapshot(s, nodes, discharges)
    ensures ById(nodes) == s.nodes
  {
    forall i | i in s.nodes ensures i in ById(nodes) {
      assert s.nodes[i] in nodes && s.nodes[i].id == i;
    }
  }

  lemma OwnDischargesFit(s: State, nodes: seq<Node>, discharges: seq<Discharge>)
    requires DischargesAreSound(s) && IsSnapshot(s, nodes, discharges)
    ensures DischargesFit(s.nodes, discharges)
  {
  }

  /** Replaying the nodes and discharges of any reachable ledger, in any order, rebuilds that ledger. */
  lemma ReplayRebuilds(digest: Node -> EvidenceId, ops: seq<Operation>, nodes: seq<Node>, discharges: seq<Discharge>)
    requires IsSnapshot(Run(digest, ops), nodes, discharges)
    ensures ById(nodes) == Run(digest, ops).nodes
    ensures HasLegalOrder(digest, ById(nodes)) && DischargesFit(ById(nodes), discharges)
    ensures forall stored :: Replayed(discharges, |discharges|, stored) ==> stored == Run(digest, ops).discharges
  {
    var s := Run(digest, ops);
    ReachableIsSound(digest, ops);
    SnapshotById(digest, s, nodes, discharges);
    InsertionIsLegal(digest, s, |s.order|);
    InsertionListsAll(digest, s);
    OwnDischargesFit(s, nodes, discharges);
    forall stored | Replayed(discharges, |discharges|, stored) ensures stored == s.discharges {
      SameDischarges(s, nodes, discharges, stored);
    }
  }

  lemma InsertionListsAll(digest: Node -> EvidenceId, s: State)
    requires IsSound(digest, s) && IsLegal(digest, InOrder(s, |s.order|))
    ensures HasLegalOrder(digest, s.nodes)
  {
    var order := InOrder(s, |s.order|);
    forall i | i in s.nodes ensures s.nodes[i] in order {
      var k :| 0 <= k < |s.order| && s.order[k] == i;
      assert order[k] == s.nodes[i];
    }
    assert IsLegalOrder(digest, s.nodes, order);
  }

  lemma SameDischarges(s: State, nodes: seq<Node>, discharges: seq<Discharge>, stored: map<EvidenceId, Discharge>)
    requires DischargesAreSound(s) && IsSnapshot(s, nodes, discharges) && Replayed(discharges, |discharges|, stored)
    ensures stored == s.discharges
  {
    forall u | u in s.discharges ensures u in stored && stored[u] == s.discharges[u] {
      var k :| 0 <= k < |discharges| && discharges[k] == s.discharges[u];
    }
  }
}

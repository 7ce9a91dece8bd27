/** Inputs for which the phase analysis says more than is true. */
module PhaseInputs {
  import opened Events
  import opened Graphs
  import opened Reachability
  import opened Calls
  import opened Dominators
  import opened Phase

  const MAIN: nat := 10
  const HELPER: nat := 100
  const WORK: nat := 200
  const OTHER: nat := 250
  const EARLY := CallSite(MAIN, 11, Some(10), [Target(true, HELPER)], false)
  const LATE := CallSite(MAIN, 21, Some(20), [Target(true, WORK)], false)
  const CREATE := CallSite(WORK, 201, Some(200), [Target(false, 7)], true)
  const JUMP := CallSite(WORK, 205, Some(200), [Target(true, HELPER), Target(true, 300)], false)
  const SPAWN := CallSite(MAIN, 10, Some(10), [Target(true, OTHER), Target(true, 300)], false)
  const CREATE_ELSEWHERE := CallSite(OTHER, 251, Some(250), [Target(false, 7)], true)
  const PROGRAM := Program([Block(10, 5, [20]), Block(20, 5, [])], [Function(10, {10, 20})], Some(MAIN), {}, true, 1000)

  /** Main calls HELPER early and WORK late, WORK creates threads, and no other call has one known target. */
  ghost predicate IsExample(sites: seq<CallSite>) {
    && EARLY in sites && LATE in sites && CREATE in sites
    && (forall s :: s in sites && s.Callee().Some? ==> s == EARLY || s == LATE)
    && (forall s :: s in sites && s.isCreate ==> s.caller == WORK || s.caller == OTHER)
    && (forall s :: s in sites && s.caller == MAIN ==> s == EARLY || s == LATE || s == SPAWN)
  }

  lemma ExampleArcs(sites: seq<CallSite>)
    requires IsExample(sites)
    ensures CallArcs(sites) == {(MAIN, HELPER), (MAIN, WORK)} && BlockArcs(PROGRAM.blocks) == {(10, 20)}
  {
    forall a: nat, b: nat ensures (a, b) in CallArcs(sites) <==> (a, b) == (MAIN, HELPER) || (a, b) == (MAIN, WORK) {
      assert EARLY.Callee() == Some(HELPER) && LATE.Callee() == Some(WORK);
    }
    forall a: nat, b: nat ensures (a, b) in BlockArcs(PROGRAM.blocks) <==> (a, b) == (10, 20) {
      assert PROGRAM.blocks[0].successors[0] == 20 && PROGRAM.blocks[0] in PROGRAM.blocks;
    }
  }

  /** In a graph whose edges all start at one node that none enters, only that node leads anywhere. */
  lemma StarLeads(arcs: Arcs, center: nat, a: nat, b: nat)
    requires forall e :: e in arcs ==> e.0 == center && e.1 != center
    ensures Leads(arcs, a, b) <==> a == b || (a == center && (a, b) in arcs)
  {
    if a == center && (a, b) in arcs { EdgeReaches(arcs, a, b); }
    if Leads(arcs, a, b) { ClosedSetHolds(arcs, if a == center then {a} + Ends(arcs) else {a}, a, b); }
    if Leads(arcs, center, b) && b != center && a == center {
      var e :| e in arcs && e.1 == b;
      assert e == (center, b);
    }
  }

  lemma ExampleSites(sites: seq<CallSite>, concurrent: set<nat>)
    requires IsExample(sites) && concurrent == {MAIN, WORK}
    ensures forall s :: s in sites && s.caller == MAIN ==>
              (IsQuietSite(PROGRAM, MAIN, sites, concurrent, s) <==> s != LATE)
  {
    ExampleArcs(sites);
    var cfg := BlockArcs(PROGRAM.blocks);
    StarLeads(cfg, 10, 10, 20);
    StarLeads(cfg, 10, 20, 10);
    assert SmallestBlock(PROGRAM.blocks, PROGRAM.postJoinPc).None?;
    assert LATE.Callee() == Some(WORK) && IsEntry(MAIN, concurrent, LATE);
    assert !ComesLater(cfg, LATE, LATE) && ComesLater(cfg, LATE, EARLY) && ComesLater(cfg, LATE, SPAWN);
    forall e | e in sites && IsEntry(MAIN, concurrent, e) ensures e == LATE {
      assert EARLY.Callee() == Some(HELPER) && SPAWN.Callee().None?;
    }
  }

  lemma ExampleReach(sites: seq<CallSite>, reachable: set<nat>, concurrent: set<nat>)
    requires IsExample(sites) && reachable == {MAIN, HELPER, WORK} && concurrent == {MAIN, WORK}
    ensures forall f :: f in reachable <==> LedFrom(CallArcs(sites), [MAIN], f)
    ensures LeadToCreate(sites, reachable, concurrent)
  {
    ExampleArcs(sites);
    var arcs := CallArcs(sites);
    var creators := set s | s in sites && s.isCreate && s.caller in reachable :: s.caller;
    assert creators == {WORK};
    forall f: nat ensures f in reachable <==> LedFrom(arcs, [MAIN], f) {
      StarLeads(arcs, MAIN, MAIN, f);
      assert MAIN in [MAIN];
    }
    forall f: nat ensures f in concurrent <==> LeadsToCreate(arcs, creators, f) {
      StarLeads(arcs, MAIN, f, WORK);
    }
  }

  lemma ExampleAdmission(sites: seq<CallSite>, reachable: set<nat>, concurrent: set<nat>, quietSites: set<CallSite>)
    requires IsExample(sites) && reachable == {MAIN, HELPER, WORK} && concurrent == {MAIN, WORK} && EARLY in quietSites
    ensures forall quiet: set<nat> :: quiet <= {HELPER} ==>
              forall t :: Admits(sites, reachable, MAIN, concurrent, {}, quietSites, quiet, t) <==> t == HELPER
  {
    assert EARLY.Callee() == Some(HELPER) && LATE.Callee() == Some(WORK);
  }

  lemma ExampleOrder(sites: seq<CallSite>, reachable: set<nat>, concurrent: set<nat>, quietSites: set<CallSite>)
    requires IsExample(sites) && reachable == {MAIN, HELPER, WORK} && concurrent == {MAIN, WORK} && EARLY in quietSites
    ensures AdmittedInOrder(sites, reachable, MAIN, concurrent, {}, quietSites, [HELPER])
    ensures Before([HELPER], 1) == {HELPER}
    ensures IsClosed(sites, reachable, MAIN, concurrent, {}, quietSites, {HELPER})
  {
    ExampleAdmission(sites, reachable, concurrent, quietSites);
    assert Before([HELPER], 0) == {};
    assert [HELPER][..1] == [HELPER];
    forall f: nat ensures f in Before([HELPER], 1) <==> f == HELPER { assert HELPER in [HELPER]; }
  }

  lemma ExamplePhase(sites: seq<CallSite>, reachable: set<nat>, concurrent: set<nat>, quietSites: set<CallSite>)
    requires IsExample(sites) && reachable == {MAIN, HELPER, WORK} && concurrent == {MAIN, WORK}
    requires forall s :: s in quietSites <==> s in sites && s.caller == MAIN && s != LATE
    ensures IsPhase(PROGRAM, sites, MAIN, {HELPER}, [HELPER], reachable, concurrent, quietSites)
  {
    ExampleReach(sites, reachable, concurrent);
    ExampleSites(sites, concurrent);
    assert PROGRAM.incomplete * reachable == {};
    ExampleOrder(sites, reachable, concurrent, quietSites);
  }

  lemma ExampleOverlooked(sites: seq<CallSite>, reachable: set<nat>, quietSites: set<CallSite>)
    requires sites == [EARLY, LATE, CREATE, JUMP] && reachable == {MAIN, HELPER, WORK} && quietSites == {EARLY}
    ensures !OverlooksNothing(sites, reachable, MAIN, quietSites, [HELPER])
  {
    SingleArcIsKnown(sites);
    assert EARLY in sites && LATE in sites && CREATE in sites && JUMP in sites;
    ExampleArcs(sites);
    EdgeReaches(KnownArcs(sites), MAIN, WORK);
    assert JUMP.targets[0] == Target(true, HELPER);
    assert IsOverlooked(sites, reachable, MAIN, JUMP) && !IsQuietCall(MAIN, quietSites, [HELPER], JUMP);
    assert HELPER in [HELPER] && JUMP.Names(HELPER);
  }

  /** HELPER is called by main before WORK creates workers, so it is found quiet; but WORK, which runs beside
      them, may also call it, through a site with two known targets. */
  lemma QuietFunctionBesideWorkers(sites: seq<CallSite>, reachable: set<nat>, concurrent: set<nat>,
                                   quietSites: set<CallSite>)
    requires sites == [EARLY, LATE, CREATE, JUMP] && quietSites == {EARLY}
    requires reachable == {MAIN, HELPER, WORK} && concurrent == {MAIN, WORK}
    ensures IsPhase(PROGRAM, sites, MAIN, {HELPER}, [HELPER], reachable, concurrent, quietSites)
    ensures JUMP in sites && JUMP.caller in concurrent && JUMP.Names(HELPER)
    ensures !OverlooksNothing(sites, reachable, MAIN, quietSites, [HELPER])
  {
    assert EARLY in sites && LATE in sites && CREATE in sites && JUMP in sites;
    ExamplePhase(sites, reachable, concurrent, quietSites);
    ExampleOverlooked(sites, reachable, quietSites);
    assert JUMP.targets[0] == Target(true, HELPER);
  }

  lemma HelperCreatesNothing(sites: seq<CallSite>)
    requires sites == [EARLY, LATE, CREATE, SPAWN, CREATE_ELSEWHERE]
    ensures !CanCreate(sites, HELPER)
  {
    forall e | e in KnownArcs(sites) ensures e.0 != HELPER {
      KnownArc(sites, e.0, e.1);
    }
    forall s | s in sites && s.isCreate ensures !Leads(KnownArcs(sites), HELPER, s.caller) {
      if Leads(KnownArcs(sites), HELPER, s.caller) { ClosedSetHolds(KnownArcs(sites), {HELPER}, HELPER, s.caller); }
    }
  }

  lemma HelperIsNotOverlooked(sites: seq<CallSite>, reachable: set<nat>, quietSites: set<CallSite>)
    requires sites == [EARLY, LATE, CREATE, SPAWN, CREATE_ELSEWHERE] && reachable == {MAIN, HELPER, WORK}
    ensures OverlooksNothing(sites, reachable, MAIN, quietSites, [HELPER])
  {
    forall s, f | s in sites && f in [HELPER] && s.Names(f) ensures !IsOverlooked(sites, reachable, MAIN, s) {
      assert f == HELPER && s == EARLY;
    }
  }

  lemma SpawnIsMissed(sites: seq<CallSite>, concurrent: set<nat>)
    requires sites == [EARLY, LATE, CREATE, SPAWN, CREATE_ELSEWHERE]
    ensures IsMissedCreation(sites, MAIN, concurrent, SPAWN)
  {
    assert SPAWN in sites && CREATE_ELSEWHERE in sites && SPAWN.targets[0] == Target(true, OTHER);
    assert Leads(KnownArcs(sites), OTHER, CREATE_ELSEWHERE.caller);
    assert SPAWN.Names(OTHER) && CanCreate(sites, OTHER);
  }

  /** Main may create a worker before it calls HELPER, through a site with two known targets. No call to HELPER is
      overlooked and HELPER creates nothing, and still it is found quiet. */
  lemma QuietFunctionAfterCreation(sites: seq<CallSite>, reachable: set<nat>, concurrent: set<nat>,
                                   quietSites: set<CallSite>)
    requires sites == [EARLY, LATE, CREATE, SPAWN, CREATE_ELSEWHERE] && quietSites == {EARLY, SPAWN}
    requires reachable == {MAIN, HELPER, WORK} && concurrent == {MAIN, WORK}
    ensures IsPhase(PROGRAM, sites, MAIN, {HELPER}, [HELPER], reachable, concurrent, quietSites)
    ensures OverlooksNothing(sites, reachable, MAIN, quietSites, [HELPER]) && !CanCreate(sites, HELPER)
    ensures IsEarlySite(PROGRAM, MAIN, sites, concurrent, EARLY) && IsMissedCreation(sites, MAIN, concurrent, SPAWN)
    ensures MayFollow(BlockArcs(PROGRAM.blocks), SPAWN, EARLY)
    ensures !IsOrderedBefore(BlockArcs(PROGRAM.blocks), EARLY, SPAWN)
  {
    assert EARLY in sites && LATE in sites && CREATE in sites && SPAWN in sites && CREATE_ELSEWHERE in sites;
    ExamplePhase(sites, reachable, concurrent, quietSites);
    HelperCreatesNothing(sites);
    HelperIsNotOverlooked(sites, reachable, quietSites);
    SpawnIsMissed(sites, concurrent);
    assert SmallestBlock(PROGRAM.blocks, PROGRAM.postJoinPc).None?;
  }

  /** A block on a cycle: the helper is called at 11 and threads are created at 12, again and again. */
  lemma QuietCallInLoop(program: Program, sites: seq<CallSite>, concurrent: set<nat>, create: CallSite)
    requires program == PROGRAM.(blocks := [Block(10, 5, [10])]) && concurrent == {MAIN}
    requires create == CallSite(MAIN, 12, Some(10), [Target(false, 7)], true) && sites == [EARLY, create]
    ensures IsEarlySite(program, MAIN, sites, concurrent, EARLY) && IsCreatingCall(sites, MAIN, create)
    ensures SharesLoopWithEntry(BlockArcs(program.blocks), MAIN, sites, concurrent, EARLY)
    ensures MayFollow(BlockArcs(program.blocks), create, EARLY)
  {
    assert SmallestBlock(program.blocks, program.postJoinPc).None?;
    assert create in sites && IsEntry(MAIN, concurrent, create);
    assert EARLY.Callee() == Some(HELPER);
    forall e | e in sites && IsEntry(MAIN, concurrent, e) ensures e == create {}
    assert program.blocks[0] in program.blocks && program.blocks[0].successors[0] == 10;
    assert (10, 10) in BlockArcs(program.blocks);
    EdgeReaches(BlockArcs(program.blocks), 10, 10);
  }
}

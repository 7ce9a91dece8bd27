/** What the phase analysis takes for quiet, in terms of call sites and their targets, blocks and addresses. */
module PhaseMeaning {
  import opened Events
  import opened Graphs
  import opened Reachability
  import opened Calls
  import opened Dominators
  import opened JoinMeaning
  import opened Phase

  /** The call goes to f and is known to go nowhere else. */
  predicate GoesTo(s: CallSite, f: nat) {
    s.targets == [Target(true, f)]
  }

  ghost predicate HasCall(sites: seq<CallSite>, a: nat, b: nat) {
    exists s :: s in sites && s.caller == a && GoesTo(s, b)
  }

  ghost predicate IsCallPath(sites: seq<CallSite>, p: seq<nat>) {
    p != [] && forall i :: 0 <= i < |p| - 1 ==> HasCall(sites, p[i], p[i + 1])
  }

  /** Calls with one target lead from a to b, or a is b. */
  ghost predicate Runs(sites: seq<CallSite>, a: nat, b: nat) {
    exists p :: IsCallPath(sites, p) && p[0] == a && p[|p| - 1] == b
  }

  /** f can come to a creation of threads that main can come to as well. */
  ghost predicate Creates(sites: seq<CallSite>, main: nat, f: nat) {
    exists s :: s in sites && s.isCreate && Runs(sites, main, s.caller) && Runs(sites, f, s.caller)
  }

  /** A call of main, in a known block, that creates threads or goes to a function that does. */
  ghost predicate IsCreator(sites: seq<CallSite>, main: nat, e: CallSite) {
    && e in sites && e.caller == main && e.block != None
    && (e.isCreate || exists f :: GoesTo(e, f) && Creates(sites, main, f))
  }

  ghost predicate HasSuccessor(blocks: seq<Block>, a: nat, b: nat) {
    exists x :: x in blocks && x.pc == a && b in x.successors
  }

  ghost predicate IsBlockPath(blocks: seq<Block>, p: seq<nat>) {
    p != [] && forall i :: 0 <= i < |p| - 1 ==> HasSuccessor(blocks, p[i], p[i + 1])
  }

  ghost predicate BlocksLead(blocks: seq<Block>, a: nat, b: nat) {
    exists p :: IsBlockPath(blocks, p) && p[0] == a && p[|p| - 1] == b
  }

  /** In one block the creator has the higher address; otherwise blocks lead to it and not back. */
  ghost predicate IsFollowedBy(blocks: seq<Block>, call: CallSite, e: CallSite) {
    && call.block.Some? && e.block.Some?
    && if call.block == e.block then call.pc < e.pc
       else BlocksLead(blocks, call.block.value, e.block.value) && !BlocksLead(blocks, e.block.value, call.block.value)
  }

  /** A call of main after the join of all workers, or before all creators. */
  ghost predicate IsCalm(program: Program, sites: seq<CallSite>, main: nat, call: CallSite) {
    || (program.proven && IsCovered(program.blocks, program.functions, program.postJoinPc, call.pc))
    || ((exists e :: IsCreator(sites, main, e))
        && (forall e :: IsCreator(sites, main, e) ==> IsFollowedBy(program.blocks, call, e)))
  }

  /** Given that some functions are quiet, f is too: main can come to a call of it; every such call is in a quiet
      function or a calm call of main; f creates nothing; and functions with unresolved calls are quiet. */
  ghost predicate FollowsQuiet(program: Program, sites: seq<CallSite>, main: nat, quiet: set<nat>, f: nat) {
    && f != main && !Creates(sites, main, f)
    && (forall g :: g in program.incomplete && Runs(sites, main, g) ==> g in quiet)
    && (exists s :: s in sites && GoesTo(s, f) && Runs(sites, main, s.caller))
    && (forall s :: s in sites && GoesTo(s, f) && Runs(sites, main, s.caller) ==>
          s.caller in quiet || (s.caller == main && IsCalm(program, sites, main, s)))
  }

  ghost predicate HoldsAllQuiet(program: Program, sites: seq<CallSite>, main: nat, quiet: set<nat>) {
    forall f :: FollowsQuiet(program, sites, main, quiet, f) ==> f in quiet
  }

  // ----- The notions agree -----

  lemma CalleeIsTarget(s: CallSite, f: nat)
    ensures s.Callee() == Some(f) <==> GoesTo(s, f)
  {
  }

  lemma CallIsArc(sites: seq<CallSite>, a: nat, b: nat)
    ensures (a, b) in CallArcs(sites) <==> HasCall(sites, a, b)
  {
    if s :| s in sites && s.caller == a && GoesTo(s, b) { CalleeIsTarget(s, b); }
    if (a, b) in CallArcs(sites) {
      var s :| s in sites && s.Callee().Some? && (s.caller, s.Callee().value) == (a, b);
      CalleeIsTarget(s, b);
    }
  }

  lemma PathIsCallWalk(sites: seq<CallSite>, p: seq<nat>)
    ensures IsCallPath(sites, p) <==> IsWalk(CallArcs(sites), p)
  {
    forall a: nat, b: nat ensures (a, b) in CallArcs(sites) <==> HasCall(sites, a, b) { CallIsArc(sites, a, b); }
    WalkBySteps(CallArcs(sites), p);
  }

  /** A walk, step by step. */
  lemma WalkBySteps(arcs: Arcs, p: seq<nat>)
    ensures IsWalk(arcs, p) <==> p != [] && forall i {:trigger p[i]} :: 0 <= i < |p| - 1 ==> (p[i], p[i + 1]) in arcs
  {
  }

  lemma RunsIsLeads(sites: seq<CallSite>, a: nat, b: nat)
    ensures Leads(CallArcs(sites), a, b) <==> Runs(sites, a, b)
  {
    var arcs := CallArcs(sites);
    if Leads(arcs, a, b) {
      var p := [a];
      if a != b { p :| WalkFromTo(arcs, p, a, b); }
      PathIsCallWalk(sites, p);
    }
    if p :| IsCallPath(sites, p) && p[0] == a && p[|p| - 1] == b {
      PathIsCallWalk(sites, p);
      if |p| > 1 { assert WalkFromTo(arcs, p, a, b); }
    }
  }

  lemma SuccessorIsArc(blocks: seq<Block>, a: nat, b: nat)
    ensures (a, b) in BlockArcs(blocks) <==> HasSuccessor(blocks, a, b)
  {
  }

  lemma BlockPathIsWalk(blocks: seq<Block>, p: seq<nat>)
    ensures IsBlockPath(blocks, p) <==> IsWalk(BlockArcs(blocks), p)
  {
    forall a: nat, b: nat ensures (a, b) in BlockArcs(blocks) <==> HasSuccessor(blocks, a, b) {
      SuccessorIsArc(blocks, a, b);
    }
    WalkBySteps(BlockArcs(blocks), p);
  }

  lemma BlocksLeadIsLeads(blocks: seq<Block>, a: nat, b: nat)
    ensures Leads(BlockArcs(blocks), a, b) <==> BlocksLead(blocks, a, b)
  {
    var arcs := BlockArcs(blocks);
    if Leads(arcs, a, b) {
      var p := [a];
      if a != b { p :| WalkFromTo(arcs, p, a, b); }
      BlockPathIsWalk(blocks, p);
    }
    if p :| IsBlockPath(blocks, p) && p[0] == a && p[|p| - 1] == b {
      BlockPathIsWalk(blocks, p);
      if |p| > 1 { assert WalkFromTo(arcs, p, a, b); }
    }
  }

  /** What the phase consists of, for the given functions and sites. */
  ghost predicate IsSetUp(program: Program, sites: seq<CallSite>, main: nat, reachable: set<nat>,
                          concurrent: set<nat>, quietSites: set<CallSite>) {
    && (forall f :: f in reachable <==> LedFrom(CallArcs(sites), [main], f))
    && (forall f :: f in concurrent <==>
          LeadsToCreate(CallArcs(sites), set s | s in sites && s.isCreate && s.caller in reachable :: s.caller, f))
    && (forall s :: s in quietSites <==>
      s in sites && s.caller == main && IsQuietSite(program, main, sites, concurrent, s))
  }

  lemma ReachableIsRun(program: Program, sites: seq<CallSite>, main: nat, reachable: set<nat>, f: nat)
    requires forall g :: g in reachable <==> LedFrom(CallArcs(sites), [main], g)
    ensures f in reachable <==> Runs(sites, main, f)
  {
    RunsIsLeads(sites, main, f);
    if Leads(CallArcs(sites), main, f) { assert main in [main]; }
  }

  lemma ConcurrentCreates(program: Program, sites: seq<CallSite>, main: nat, reachable: set<nat>,
                          concurrent: set<nat>, quietSites: set<CallSite>, f: nat)
    requires IsSetUp(program, sites, main, reachable, concurrent, quietSites)
    ensures f in concurrent <==> Creates(sites, main, f)
  {
    var creators := set s | s in sites && s.isCreate && s.caller in reachable :: s.caller;
    if f in concurrent {
      var c :| c in creators && Leads(CallArcs(sites), f, c);
      var s :| s in sites && s.isCreate && s.caller in reachable && s.caller == c;
      ReachableIsRun(program, sites, main, reachable, c);
      RunsIsLeads(sites, f, c);
    }
    if Creates(sites, main, f) {
      var s :| s in sites && s.isCreate && Runs(sites, main, s.caller) && Runs(sites, f, s.caller);
      ReachableIsRun(program, sites, main, reachable, s.caller);
      RunsIsLeads(sites, f, s.caller);
      assert s.caller in creators;
    }
  }

  lemma CreatorIsEntry(program: Program, sites: seq<CallSite>, main: nat, reachable: set<nat>, concurrent: set<nat>,
                       quietSites: set<CallSite>, e: CallSite)
    requires IsSetUp(program, sites, main, reachable, concurrent, quietSites)
    ensures e in sites && IsEntry(main, concurrent, e) <==> IsCreator(sites, main, e)
  {
    forall f: nat ensures e.Callee() == Some(f) <==> GoesTo(e, f) ensures f in concurrent <==> Creates(sites, main, f) {
      CalleeIsTarget(e, f);
      ConcurrentCreates(program, sites, main, reachable, concurrent, quietSites, f);
    }
    if e.Callee().Some? { assert GoesTo(e, e.Callee().value); }
  }

  lemma LaterIsFollowed(program: Program, e: CallSite, call: CallSite)
    requires e.block.Some? && call.block.Some?
    ensures ComesLater(BlockArcs(program.blocks), e, call) <==> IsFollowedBy(program.blocks, call, e)
  {
    BlocksLeadIsLeads(program.blocks, e.block.value, call.block.value);
    BlocksLeadIsLeads(program.blocks, call.block.value, e.block.value);
  }

  lemma CalmIsQuiet(program: Program, sites: seq<CallSite>, main: nat, reachable: set<nat>, concurrent: set<nat>,
                    quietSites: set<CallSite>, call: CallSite)
    requires IsSetUp(program, sites, main, reachable, concurrent, quietSites)
    ensures IsQuietSite(program, main, sites, concurrent, call) <==> IsCalm(program, sites, main, call)
  {
    CoveredByRuns(program.blocks, program.functions, program.postJoinPc, call.pc);
    forall e: CallSite
      ensures e in sites && IsEntry(main, concurrent, e) <==> IsCreator(sites, main, e)
      ensures e.block.Some? && call.block.Some? ==>
        (ComesLater(BlockArcs(program.blocks), e, call) <==> IsFollowedBy(program.blocks, call, e)) {
      CreatorIsEntry(program, sites, main, reachable, concurrent, quietSites, e);
      if e.block.Some? && call.block.Some? { LaterIsFollowed(program, e, call); }
    }
  }

  lemma AdmittedFollows(program: Program, sites: seq<CallSite>, main: nat, reachable: set<nat>, concurrent: set<nat>,
                        quietSites: set<CallSite>, quiet: set<nat>, f: nat)
    requires IsSetUp(program, sites, main, reachable, concurrent, quietSites)
    ensures Admits(sites, reachable, main, concurrent, program.incomplete * reachable, quietSites, quiet, f)
       <==> FollowsQuiet(program, sites, main, quiet, f)
  {
    ConcurrentCreates(program, sites, main, reachable, concurrent, quietSites, f);
    forall g: nat ensures g in reachable <==> Runs(sites, main, g) {
      ReachableIsRun(program, sites, main, reachable, g);
    }
    forall s: CallSite
      ensures s.Callee() == Some(f) <==> GoesTo(s, f)
      ensures s in quietSites <==> s in sites && s.caller == main && IsCalm(program, sites, main, s) {
      CalleeIsTarget(s, f);
      CalmIsQuiet(program, sites, main, reachable, concurrent, quietSites, s);
    }
  }

  /** The result is the least set that holds every function which follows from it. */
  lemma PhaseIsLeast(program: Program, sites: seq<CallSite>, main: nat, quiet: set<nat>, other: set<nat>)
    requires IsOutsideConcurrentPhase(program, sites, main, quiet)
    ensures HoldsAllQuiet(program, sites, main, quiet)
    ensures HoldsAllQuiet(program, sites, main, other) ==> quiet <= other
  {
    var order, reachable, concurrent, quietSites :|
      IsPhase(program, sites, main, quiet, order, reachable, concurrent, quietSites);
    assert IsSetUp(program, sites, main, reachable, concurrent, quietSites);
    var incomplete := program.incomplete * reachable;
    forall s: set<nat>, f: nat
      ensures Admits(sites, reachable, main, concurrent, incomplete, quietSites, s, f)
         <==> FollowsQuiet(program, sites, main, s, f) {
      AdmittedFollows(program, sites, main, reachable, concurrent, quietSites, s, f);
    }
    if HoldsAllQuiet(program, sites, main, other) {
      assert IsClosed(sites, reachable, main, concurrent, incomplete, quietSites, other);
      QuietIsLeast(sites, reachable, main, concurrent, incomplete, quietSites, order, other, |order|);
    }
  }

  /** The analysis starts only if main can come to a creation of threads. */
  lemma CreationIsReached(sites: seq<CallSite>, main: nat)
    ensures ReachesCreate(sites, main) <==> Creates(sites, main, main)
  {
    forall f: nat ensures Leads(CallArcs(sites), main, f) <==> Runs(sites, main, f) { RunsIsLeads(sites, main, f); }
  }
}

/** Which functions of the main thread are taken to run only while no worker can be running. Calls with several
    known targets are not followed, so this is a fact about the program under conditions only. */
module Phase {
  import opened Events
  import opened Graphs
  import opened Reachability
  import opened Calls
  import opened Dominators

  /** What the analysis is given besides the call sites. */
  datatype Program = Program(
    blocks: seq<Block>, functions: seq<Function>, main: Option<nat>, incomplete: set<nat>, proven: bool,
      postJoinPc: nat)

  function BlockArcs(blocks: seq<Block>): Arcs {
    set b, t | b in blocks && t in b.successors :: (b.pc, t)
  }

  // ----- Functions that may run beside workers -----

  /** f can reach a function that creates threads. */
  ghost predicate LeadsToCreate(arcs: Arcs, creators: set<nat>, f: nat) {
    exists c :: c in creators && Leads(arcs, f, c)
  }

  method ConcurrentFunctions(arcs: Arcs, creators: set<nat>) returns (concurrent: set<nat>)
    ensures forall f :: f in concurrent <==> LeadsToCreate(arcs, creators, f)
  {
    var starts := Listed(creators);
    concurrent := Closure(Reversed(arcs), starts);
    forall f ensures f in concurrent <==> LeadsToCreate(arcs, creators, f) {
      forall c ensures Leads(Reversed(arcs), c, f) <==> Leads(arcs, f, c) {
        ReversedLeads(arcs, f, c);
      }
      if c :| c in creators && Leads(arcs, f, c) { assert c in starts && Leads(Reversed(arcs), c, f); }
      if c :| c in starts && Leads(Reversed(arcs), c, f) { assert c in creators && Leads(arcs, f, c); }
    }
  }

  // ----- The least fixpoint -----

  /** Every known call of t comes from a quiet function, or from main at a quiet site. */
  predicate CallsAreQuiet(sites: seq<CallSite>, reachable: set<nat>, main: nat, quietSites: set<CallSite>,
                          quiet: set<nat>, t: nat) {
    forall s :: s in sites && s.Callee() == Some(t) && s.caller in reachable ==>
      s.caller in quiet || (s.caller == main && s in quietSites)
  }

  predicate IsCalled(sites: seq<CallSite>, reachable: set<nat>, t: nat) {
    exists s :: s in sites && s.Callee() == Some(t) && s.caller in reachable
  }

  /** The rule that makes t quiet, given the functions that are quiet already. */
  predicate Admits(sites: seq<CallSite>, reachable: set<nat>, main: nat, concurrent: set<nat>, incomplete: set<nat>,
                   quietSites: set<CallSite>, quiet: set<nat>, t: nat) {
    && IsCalled(sites, reachable, t) && t != main && t !in concurrent && incomplete <= quiet
    && CallsAreQuiet(sites, reachable, main, quietSites, quiet, t)
  }

  ghost predicate IsClosed(sites: seq<CallSite>, reachable: set<nat>, main: nat, concurrent: set<nat>,
                           incomplete: set<nat>, quietSites: set<CallSite>, quiet: set<nat>) {
    forall t :: Admits(sites, reachable, main, concurrent, incomplete, quietSites, quiet, t) ==> t in quiet
  }

  ghost predicate IsClosedOn(candidates: set<nat>, sites: seq<CallSite>, reachable: set<nat>, main: nat,
                             concurrent: set<nat>, incomplete: set<nat>, quietSites: set<CallSite>, quiet: set<nat>) {
    forall t :: t in candidates && Admits(sites, reachable, main, concurrent, incomplete, quietSites, quiet, t)
      ==> t in quiet
  }

  /** Each function was admitted on account of functions before it. */
  ghost predicate AdmittedInOrder(sites: seq<CallSite>, reachable: set<nat>, main: nat, concurrent: set<nat>,
                                  incomplete: set<nat>, quietSites: set<CallSite>, order: seq<nat>) {
    forall i :: 0 <= i < |order| ==>
      Admits(sites, reachable, main, concurrent, incomplete, quietSites, Before(order, i), order[i])
  }

  ghost function Before(order: seq<nat>, i: nat): set<nat>
    requires i <= |order|
  {
    set f | f in order[..i]
  }

  lemma AdmitNext(sites: seq<CallSite>, reachable: set<nat>, main: nat, concurrent: set<nat>, incomplete: set<nat>,
                  quietSites: set<CallSite>, order: seq<nat>, t: nat)
    requires AdmittedInOrder(sites, reachable, main, concurrent, incomplete, quietSites, order)
    requires Admits(sites, reachable, main, concurrent, incomplete, quietSites, Before(order, |order|), t)
    ensures AdmittedInOrder(sites, reachable, main, concurrent, incomplete, quietSites, order + [t])
    ensures Before(order + [t], |order| + 1) == Before(order, |order|) + {t}
  {
    var order' := order + [t];
    assert order'[..|order|] == order[..|order|] == order;
    assert order'[..|order| + 1] == order + [t];
    forall i | 0 <= i < |order'|
      ensures Admits(sites, reachable, main, concurrent, incomplete, quietSites, Before(order', i), order'[i]) {
      if i < |order| { assert order'[..i] == order[..i]; }
    }
  }

  /** The fixpoint iteration: one pass over the called functions admits what it can, until nothing changes. */
  method QuietFunctions(sites: seq<CallSite>, reachable: set<nat>, main: nat, concurrent: set<nat>,
                        incomplete: set<nat>, quietSites: set<CallSite>)
    returns (quiet: set<nat>, ghost order: seq<nat>)
    ensures AdmittedInOrder(sites, reachable, main, concurrent, incomplete, quietSites, order)
    ensures quiet == Before(order, |order|)
    ensures IsClosed(sites, reachable, main, concurrent, incomplete, quietSites, quiet)
  {
    var called := set s | s in sites && s.Callee().Some? && s.caller in reachable :: s.Callee().value;
    quiet, order := {}, [];
    var changed := true;
    while changed
      invariant AdmittedInOrder(sites, reachable, main, concurrent, incomplete, quietSites, order)
      invariant quiet == Before(order, |order|) && quiet <= called
      invariant !changed ==> IsClosedOn(called, sites, reachable, main, concurrent, incomplete, quietSites, quiet)
      decreases called - quiet, changed
    {
      changed := false;
      ghost var before := quiet;
      var left := called;
      while left != {}
        invariant left <= called && before <= quiet <= called
        invariant AdmittedInOrder(sites, reachable, main, concurrent, incomplete, quietSites, order)
        invariant quiet == Before(order, |order|)
        invariant changed ==> before < quiet
        invariant !changed ==> before == quiet
        invariant !changed ==> IsClosedOn(called - left, sites, reachable, main, concurrent, incomplete, quietSites,
          quiet)
      {
        var t :| t in left;
        left := left - {t};
        if t !in quiet && Admits(sites, reachable, main, concurrent, incomplete, quietSites, quiet, t) {
          AdmitNext(sites, reachable, main, concurrent, incomplete, quietSites, order, t);
          quiet := quiet + {t};
          order := order + [t];
          changed := true;
        }
      }
    }
    forall t | Admits(sites, reachable, main, concurrent, incomplete, quietSites, quiet, t) ensures t in quiet {
      var s :| s in sites && s.Callee() == Some(t) && s.caller in reachable;
      assert s.Callee().value in called;
    }
  }

  // ----- What the fixpoint means -----

  /** The quiet functions are the least set that the rule closes. */
  lemma {:induction false} QuietIsLeast(sites: seq<CallSite>, reachable: set<nat>, main: nat, concurrent: set<nat>,
                                        incomplete: set<nat>, quietSites: set<CallSite>, order: seq<nat>,
                                        other: set<nat>, n: nat)
    requires AdmittedInOrder(sites, reachable, main, concurrent, incomplete, quietSites, order) && n <= |order|
    requires IsClosed(sites, reachable, main, concurrent, incomplete, quietSites, other)
    ensures Before(order, n) <= other
  {
    if n > 0 {
      QuietIsLeast(sites, reachable, main, concurrent, incomplete, quietSites, order, other, n - 1);
      assert Admits(sites, reachable, main, concurrent, incomplete, quietSites, Before(order, n - 1), order[n - 1]);
      assert Admits(sites, reachable, main, concurrent, incomplete, quietSites, other, order[n - 1]);
      assert order[..n] == order[..n - 1] + [order[n - 1]];
    }
  }

  /** An unresolved indirect call that main can reach keeps every function out. */
  lemma UnresolvedCallsBlockAll(sites: seq<CallSite>, reachable: set<nat>, main: nat, concurrent: set<nat>,
                                incomplete: set<nat>, quietSites: set<CallSite>, order: seq<nat>)
    requires AdmittedInOrder(sites, reachable, main, concurrent, incomplete, quietSites, order)
    ensures incomplete != {} ==> order == []
  {
    if order != [] {
      assert Admits(sites, reachable, main, concurrent, incomplete, quietSites, Before(order, 0), order[0]);
      assert Before(order, 0) == {};
    }
  }

  lemma MainIsNotQuiet(sites: seq<CallSite>, reachable: set<nat>, main: nat, concurrent: set<nat>,
                       incomplete: set<nat>, quietSites: set<CallSite>, order: seq<nat>)
    requires AdmittedInOrder(sites, reachable, main, concurrent, incomplete, quietSites, order)
    ensures main !in order
  {
    forall i | 0 <= i < |order| ensures order[i] != main {
      assert Admits(sites, reachable, main, concurrent, incomplete, quietSites, Before(order, i), order[i]);
    }
  }

  /** Callers other than main come earlier in the order of admission. */
  lemma CallerIsEarlier(sites: seq<CallSite>, reachable: set<nat>, main: nat, concurrent: set<nat>,
                        incomplete: set<nat>, quietSites: set<CallSite>, order: seq<nat>, caller: nat, j: nat)
    returns (i: nat)
    requires AdmittedInOrder(sites, reachable, main, concurrent, incomplete, quietSites, order) && j < |order|
    requires (caller, order[j]) in CallArcs(sites) && caller in reachable && caller != main
    ensures i < j && order[i] == caller
  {
    assert Admits(sites, reachable, main, concurrent, incomplete, quietSites, Before(order, j), order[j]);
    var s :| s in sites && s.Callee() == Some(order[j]) && s.caller == caller;
    assert caller in Before(order, j);
    i :| 0 <= i < j && order[i] == caller;
  }

  lemma {:induction false} ChainIsEarlier(sites: seq<CallSite>, reachable: set<nat>, main: nat, concurrent: set<nat>,
                                          incomplete: set<nat>, quietSites: set<CallSite>, order: seq<nat>,
                                          p: seq<nat>, j: nat)
    returns (i: nat)
    requires AdmittedInOrder(sites, reachable, main, concurrent, incomplete, quietSites, order) && j < |order|
    requires IsWalk(CallArcs(sites), p) && p[|p| - 1] == order[j] && main !in p && forall v :: v in p ==> v in reachable
    ensures i <= j && order[i] == p[0] && (|p| > 1 ==> i < j)
    decreases |p|
  {
    i := j;
    if |p| > 1 {
      var q := p[..|p| - 1];
      assert (p[|p| - 2], p[|p| - 1]) in CallArcs(sites);
      assert p[|p| - 2] in p && p[|p| - 2] == q[|q| - 1];
      var k := CallerIsEarlier(sites, reachable, main, concurrent, incomplete, quietSites, order, p[|p| - 2], j);
      forall m | 0 <= m < |q| - 1 ensures (q[m], q[m + 1]) in CallArcs(sites) {
        assert (p[m], p[m + 1]) in CallArcs(sites);
      }
      i := ChainIsEarlier(sites, reachable, main, concurrent, incomplete, quietSites, order, q, k);
    }
  }

  lemma FirstIndex(order: seq<nat>, t: nat) returns (j: nat)
    requires t in order
    ensures j < |order| && order[j] == t && forall i :: 0 <= i < j ==> order[i] != t
  {
    j := 0;
    while order[j] != t
      invariant j < |order| && forall i :: 0 <= i < j ==> order[i] != t
      invariant exists i :: j <= i < |order| && order[i] == t
      decreases |order| - j
    {
      j := j + 1;
    }
  }

  /** No function is quiet on account of its own recursion: a cycle through a quiet function passes main. */
  lemma RecursionIsNotQuiet(sites: seq<CallSite>, reachable: set<nat>, main: nat, concurrent: set<nat>,
                            incomplete: set<nat>, quietSites: set<CallSite>, order: seq<nat>, p: seq<nat>)
    requires AdmittedInOrder(sites, reachable, main, concurrent, incomplete, quietSites, order)
    requires IsCycle(CallArcs(sites), p) && p[0] in order && forall v :: v in p ==> v in reachable
    ensures main in p
  {
    if main !in p {
      var j := FirstIndex(order, p[0]);
      var i := ChainIsEarlier(sites, reachable, main, concurrent, incomplete, quietSites, order, p, j);
    }
  }

  ghost predicate EnteredQuietly(sites: seq<CallSite>, main: nat, quietSites: set<CallSite>, f: nat) {
    forall s :: s in sites && s.caller == main && s.Callee() == Some(f) ==> s in quietSites
  }

  lemma MainCallsQuietly(sites: seq<CallSite>, reachable: set<nat>, main: nat, concurrent: set<nat>,
                         incomplete: set<nat>, quietSites: set<CallSite>, order: seq<nat>, f: nat)
    requires AdmittedInOrder(sites, reachable, main, concurrent, incomplete, quietSites, order) && f in order
    requires main in reachable
    ensures EnteredQuietly(sites, main, quietSites, f)
  {
    MainIsNotQuiet(sites, reachable, main, concurrent, incomplete, quietSites, order);
    var j :| 0 <= j < |order| && order[j] == f;
    assert Admits(sites, reachable, main, concurrent, incomplete, quietSites, Before(order, j), order[j]);
  }

  /** The caller of a quiet function is quiet, or is main at quiet sites only. */
  lemma CallerIsQuiet(sites: seq<CallSite>, reachable: set<nat>, main: nat, concurrent: set<nat>,
                      incomplete: set<nat>, quietSites: set<CallSite>, order: seq<nat>, caller: nat, f: nat)
    requires AdmittedInOrder(sites, reachable, main, concurrent, incomplete, quietSites, order) && f in order
    requires (caller, f) in CallArcs(sites) && caller in reachable
    ensures if caller == main then EnteredQuietly(sites, main, quietSites, f) else caller in order
  {
    var j :| 0 <= j < |order| && order[j] == f;
    if caller == main {
      MainCallsQuietly(sites, reachable, main, concurrent, incomplete, quietSites, order, f);
    } else {
      var i := CallerIsEarlier(sites, reachable, main, concurrent, incomplete, quietSites, order, caller, j);
    }
  }

  /** Of the first n steps of p, the last that leaves main does so at quiet sites, and quiet functions follow. */
  ghost predicate EntersAt(sites: seq<CallSite>, main: nat, quietSites: set<CallSite>, order: seq<nat>, p: seq<nat>,
                           n: nat, k: nat) {
    && k < n < |p| && p[k] == main && EnteredQuietly(sites, main, quietSites, p[k + 1])
    && forall i :: k < i <= n ==> p[i] in order
  }

  lemma EntersLater(sites: seq<CallSite>, main: nat, quietSites: set<CallSite>, order: seq<nat>, p: seq<nat>, n: nat,
                    k: nat)
    requires EntersAt(sites, main, quietSites, order, p, n, k) && n + 1 < |p| && p[n + 1] in order
    ensures EntersAt(sites, main, quietSites, order, p, n + 1, k)
  {
  }

  lemma LastStepIsQuiet(sites: seq<CallSite>, reachable: set<nat>, main: nat, concurrent: set<nat>,
                        incomplete: set<nat>, quietSites: set<CallSite>, order: seq<nat>, p: seq<nat>, n: nat)
    returns (k: nat)
    requires AdmittedInOrder(sites, reachable, main, concurrent, incomplete, quietSites, order)
    requires IsWalk(CallArcs(sites), p) && (forall v :: v in p ==> v in reachable) && p[0] == main
    requires n < |p| && p[n] in order
    ensures k + 1 == n
    ensures if p[k] == main then EntersAt(sites, main, quietSites, order, p, n, k) else p[k] in order
  {
    MainIsNotQuiet(sites, reachable, main, concurrent, incomplete, quietSites, order);
    k := n - 1;
    assert (p[k], p[k + 1]) in CallArcs(sites) && p[k] in p;
    CallerIsQuiet(sites, reachable, main, concurrent, incomplete, quietSites, order, p[k], p[k + 1]);
  }

  /** Every chain of calls with one known target, from main to a quiet function, leaves main for the last time
      at quiet sites only, and passes through quiet functions from there on. */
  lemma {:induction false} ChainsEnterQuietly(sites: seq<CallSite>, reachable: set<nat>, main: nat,
                                              concurrent: set<nat>, incomplete: set<nat>, quietSites: set<CallSite>,
                                              order: seq<nat>, p: seq<nat>, n: nat)
    returns (k: nat)
    requires AdmittedInOrder(sites, reachable, main, concurrent, incomplete, quietSites, order)
    requires IsWalk(CallArcs(sites), p) && (forall v :: v in p ==> v in reachable) && p[0] == main
    requires n < |p| && p[n] in order
    ensures EntersAt(sites, main, quietSites, order, p, n, k)
  {
    k := LastStepIsQuiet(sites, reachable, main, concurrent, incomplete, quietSites, order, p, n);
    if p[k] != main {
      k := ChainsEnterQuietly(sites, reachable, main, concurrent, incomplete, quietSites, order, p, n - 1);
      EntersLater(sites, main, quietSites, order, p, n - 1, k);
    }
  }

  // ----- The analysis -----

  /** Sites of main from which a creation of threads can be reached. */
  predicate IsEntry(main: nat, concurrent: set<nat>, s: CallSite) {
    s.caller == main && (s.isCreate || (s.Callee().Some? && s.Callee().value in concurrent)) && s.block.Some?
  }

  /** What the analysis takes for "the entry comes later than the call, and never before it": in one block the
      addresses decide, between blocks the paths. */
  ghost predicate ComesLater(cfg: Arcs, entry: CallSite, call: CallSite)
    requires entry.block.Some? && call.block.Some?
  {
    if entry.block == call.block then entry.pc > call.pc
    else !Leads(cfg, entry.block.value, call.block.value) && Leads(cfg, call.block.value, entry.block.value)
  }

  /** A site of main is quiet after the join of all workers, or before every entry. */
  ghost predicate IsQuietSite(program: Program, main: nat, sites: seq<CallSite>, concurrent: set<nat>, call: CallSite) {
    || (program.proven && CoversPc(program.blocks, program.functions, program.postJoinPc, call.pc))
    || (call.block.Some?
        && (exists e :: e in sites && IsEntry(main, concurrent, e))
        && forall e :: e in sites && IsEntry(main, concurrent, e) ==> ComesLater(BlockArcs(program.blocks), e, call))
  }

  method SiteIsQuiet(program: Program, main: nat, sites: seq<CallSite>, concurrent: set<nat>, call: CallSite)
    returns (quiet: bool)
    ensures quiet <==> IsQuietSite(program, main, sites, concurrent, call)
  {
    var covered := PostJoinCoversPc(program.proven, program.blocks, program.functions, program.postJoinPc, call.pc);
    if covered {
      return true;
    }
    if call.block.None? || forall e :: e in sites ==> !IsEntry(main, concurrent, e) {
      return false;
    }
    var cfg := BlockArcs(program.blocks);
    for i := 0 to |sites|
      invariant forall j :: 0 <= j < i && IsEntry(main, concurrent, sites[j]) ==> ComesLater(cfg, sites[j], call)
    {
      var entry := sites[i];
      if !IsEntry(main, concurrent, entry) {
        continue;
      }
      if entry.block == call.block {
        if entry.pc <= call.pc {
          return false;
        }
        continue;
      }
      var comesBack := PathExists(cfg, entry.block.value, call.block.value);
      if comesBack {
        return false;
      }
      var arrives := PathExists(cfg, call.block.value, entry.block.value);
      if !arrives {
        return false;
      }
    }
    quiet := true;
  }

  ghost predicate IsOutsideConcurrentPhase(program: Program, sites: seq<CallSite>, main: nat, quiet: set<nat>) {
    exists order, reachable, concurrent, quietSites ::
      IsPhase(program, sites, main, quiet, order, reachable, concurrent, quietSites)
  }

  ghost predicate IsPhase(program: Program, sites: seq<CallSite>, main: nat, quiet: set<nat>, order: seq<nat>,
                          reachable: set<nat>, concurrent: set<nat>, quietSites: set<CallSite>) {
    && (forall f :: f in reachable <==> LedFrom(CallArcs(sites), [main], f))
    && (forall f :: f in concurrent <==>
          LeadsToCreate(CallArcs(sites), set s | s in sites && s.isCreate && s.caller in reachable :: s.caller, f))
    && (forall s :: s in quietSites <==>
      s in sites && s.caller == main && IsQuietSite(program, main, sites, concurrent, s))
    && AdmittedInOrder(sites, reachable, main, concurrent, program.incomplete * reachable, quietSites, order)
    && IsClosed(sites, reachable, main, concurrent, program.incomplete * reachable, quietSites, quiet)
    && quiet == Before(order, |order|)
  }

  lemma CreatorsAreReached(sites: seq<CallSite>, main: nat, reachable: set<nat>, creators: set<nat>)
    requires forall f :: f in reachable <==> LedFrom(CallArcs(sites), [main], f)
    requires creators == set s | s in sites && s.isCreate && s.caller in reachable :: s.caller
    ensures creators == {} <==> !ReachesCreate(sites, main)
  {
    if ReachesCreate(sites, main) {
      var s :| s in sites && s.isCreate && Leads(CallArcs(sites), main, s.caller);
      assert LedFrom(CallArcs(sites), [main], s.caller);
      assert s.caller in creators;
    }
    if creators != {} {
      var c :| c in creators;
      var s :| s in sites && s.isCreate && s.caller in reachable && s.caller == c;
      assert LedFrom(CallArcs(sites), [main], s.caller);
    }
  }

  ghost predicate ReachesCreate(sites: seq<CallSite>, main: nat) {
    exists s :: s in sites && s.isCreate && Leads(CallArcs(sites), main, s.caller)
  }

  /** The functions of the main thread that calls with one target reach at quiet sites of main only. */
  method MainFunctionsOutsideConcurrentPhase(program: Program, sites: seq<CallSite>) returns (quiet: set<nat>)
    ensures if program.proven && program.main.Some? && ReachesCreate(sites, program.main.value)
            then IsOutsideConcurrentPhase(program, sites, program.main.value, quiet) else quiet == {}
  {
    if !program.proven || program.main.None? {
      return {};
    }
    var main := program.main.value;
    var arcs := CallArcs(sites);
    var reachable := Closure(arcs, [main]);
    var creators := set s | s in sites && s.isCreate && s.caller in reachable :: s.caller;
    CreatorsAreReached(sites, main, reachable, creators);
    if creators == {} {
      return {};
    }
    var concurrent := ConcurrentFunctions(arcs, creators);
    var quietSites: set<CallSite> := {};
    for i := 0 to |sites|
      invariant forall s :: s in quietSites <==>
        s in sites[..i] && s.caller == main && IsQuietSite(program, main, sites, concurrent, s)
    {
      assert sites[..i + 1] == sites[..i] + [sites[i]];
      if sites[i].caller == main {
        var isQuiet := SiteIsQuiet(program, main, sites, concurrent, sites[i]);
        if isQuiet {
          quietSites := quietSites + {sites[i]};
        }
      }
    }
    assert sites[..|sites|] == sites;
    ghost var order;
    quiet, order := QuietFunctions(sites, reachable, main, concurrent, program.incomplete * reachable, quietSites);
    assert IsPhase(program, sites, main, quiet, order, reachable, concurrent, quietSites);
  }

  lemma LeadingToCreate(sites: seq<CallSite>, main: nat, reachable: set<nat>, f: nat, s: CallSite)
    requires forall x :: x in reachable <==> LedFrom(CallArcs(sites), [main], x)
    requires IsCalled(sites, reachable, f) && s in sites && s.isCreate && Leads(CallArcs(sites), f, s.caller)
    ensures LeadsToCreate(CallArcs(sites), set x | x in sites && x.isCreate && x.caller in reachable :: x.caller, f)
  {
    CalleesAreReachable(sites, main, reachable, f, s.caller);
  }

  /** No quiet function reaches a creation of threads by known calls. */
  lemma QuietFunctionsCreateNothing(program: Program, sites: seq<CallSite>, main: nat, quiet: set<nat>,
                                    order: seq<nat>, reachable: set<nat>, concurrent: set<nat>,
                                    quietSites: set<CallSite>, f: nat, s: CallSite)
    requires IsPhase(program, sites, main, quiet, order, reachable, concurrent, quietSites) && f in quiet
    requires s in sites && s.isCreate
    ensures !Leads(CallArcs(sites), f, s.caller)
  {
    var i :| 0 <= i < |order| && order[i] == f;
    assert Admits(sites, reachable, main, concurrent, program.incomplete * reachable, quietSites, Before(order, i), f);
    if Leads(CallArcs(sites), f, s.caller) { LeadingToCreate(sites, main, reachable, f, s); }
  }

  lemma CalleesAreReachable(sites: seq<CallSite>, main: nat, reachable: set<nat>, f: nat, g: nat)
    requires forall x :: x in reachable <==> LedFrom(CallArcs(sites), [main], x)
    requires IsCalled(sites, reachable, f) && Leads(CallArcs(sites), f, g)
    ensures f in reachable && g in reachable
  {
    var s :| s in sites && s.Callee() == Some(f) && s.caller in reachable;
    assert LedFrom(CallArcs(sites), [main], s.caller);
    LeadsStep(CallArcs(sites), main, s.caller, f);
    assert LedFrom(CallArcs(sites), [main], f);
    if f != g {
      if main != f { ReachesTransitive(CallArcs(sites), main, f, g); }
      assert LedFrom(CallArcs(sites), [main], g);
    }
  }

  // ----- Calls with several known targets -----

  /** A call of a function that may run, but not one that the analysis follows: it has several known
      targets, or it is reached through such calls only. */
  ghost predicate IsOverlooked(sites: seq<CallSite>, reachable: set<nat>, main: nat, s: CallSite) {
    s in sites && Leads(KnownArcs(sites), main, s.caller) && (s.Callee().None? || s.caller !in reachable)
  }

  ghost predicate IsQuietCall(main: nat, quietSites: set<CallSite>, order: seq<nat>, s: CallSite) {
    s.caller in order || (s.caller == main && s in quietSites)
  }

  /** The chain leaves main for the last time at a quiet site and passes through quiet functions from there on. */
  ghost predicate StaysQuiet(main: nat, quietSites: set<CallSite>, order: seq<nat>, chain: seq<CallSite>) {
    exists k :: 0 <= k < |chain| && chain[k].caller == main && chain[k] in quietSites
             && forall i :: k < i < |chain| ==> chain[i].caller in order
  }

  /** The last call of a chain to a quiet function, if it is not overlooked, comes from a quiet function or a quiet
      site. */
  lemma FollowedCallIsQuiet(sites: seq<CallSite>, reachable: set<nat>, main: nat, concurrent: set<nat>,
                            incomplete: set<nat>, quietSites: set<CallSite>, order: seq<nat>, s: CallSite, f: nat)
    requires AdmittedInOrder(sites, reachable, main, concurrent, incomplete, quietSites, order) && f in order
    requires s in sites && s.Names(f) && s.Callee().Some? && s.caller in reachable
    ensures IsQuietCall(main, quietSites, order, s)
  {
    var j :| 0 <= j < |order| && order[j] == f;
    assert Admits(sites, reachable, main, concurrent, incomplete, quietSites, Before(order, j), order[j]);
    assert s.Callee() == Some(f);
  }

  ghost predicate OverlooksNothing(sites: seq<CallSite>, reachable: set<nat>, main: nat, quietSites: set<CallSite>,
                                   order: seq<nat>) {
    forall s, f :: IsOverlooked(sites, reachable, main, s) && f in order && s.Names(f)
      ==> IsQuietCall(main, quietSites, order, s)
  }

  lemma LastCallIsQuiet(sites: seq<CallSite>, reachable: set<nat>, main: nat, concurrent: set<nat>,
                        incomplete: set<nat>, quietSites: set<CallSite>, order: seq<nat>, chain: seq<CallSite>,
                        f: nat)
    requires AdmittedInOrder(sites, reachable, main, concurrent, incomplete, quietSites, order) && f in order
    requires OverlooksNothing(sites, reachable, main, quietSites, order) && IsKnownChain(sites, main, chain, f)
    ensures IsQuietCall(main, quietSites, order, chain[|chain| - 1])
  {
    var last := chain[|chain| - 1];
    assert last in chain;
    ChainLeads(sites, main, chain, f);
    if !IsOverlooked(sites, reachable, main, last) {
      FollowedCallIsQuiet(sites, reachable, main, concurrent, incomplete, quietSites, order, last, f);
    }
  }

  lemma StaysQuietLonger(main: nat, quietSites: set<CallSite>, order: seq<nat>, chain: seq<CallSite>)
    requires |chain| > 1 && StaysQuiet(main, quietSites, order, chain[..|chain| - 1])
      && chain[|chain| - 1].caller in order
    ensures StaysQuiet(main, quietSites, order, chain)
  {
    var before := chain[..|chain| - 1];
    var k :| 0 <= k < |before| && before[k].caller == main && before[k] in quietSites
             && forall i :: k < i < |before| ==> before[i].caller in order;
    assert chain[k] == before[k];
    assert forall i :: k < i < |before| ==> chain[i] == before[i];
  }

  lemma {:induction false} KnownChainIsQuiet(sites: seq<CallSite>, reachable: set<nat>, main: nat,
                                             concurrent: set<nat>, incomplete: set<nat>, quietSites: set<CallSite>,
                                             order: seq<nat>, chain: seq<CallSite>, f: nat)
    requires AdmittedInOrder(sites, reachable, main, concurrent, incomplete, quietSites, order) && f in order
    requires OverlooksNothing(sites, reachable, main, quietSites, order) && IsKnownChain(sites, main, chain, f)
    ensures StaysQuiet(main, quietSites, order, chain)
    decreases |chain|
  {
    var n := |chain| - 1;
    LastCallIsQuiet(sites, reachable, main, concurrent, incomplete, quietSites, order, chain, f);
    MainIsNotQuiet(sites, reachable, main, concurrent, incomplete, quietSites, order);
    if chain[n].caller in order {
      PrefixChain(sites, main, chain, f);
      KnownChainIsQuiet(sites, reachable, main, concurrent, incomplete, quietSites, order, chain[..n], chain[n].caller);
      StaysQuietLonger(main, quietSites, order, chain);
    }
  }

  lemma OverlookedChain(sites: seq<CallSite>, main: nat, s: CallSite, f: nat) returns (chain: seq<CallSite>)
    requires s in sites && s.Names(f) && Leads(KnownArcs(sites), main, s.caller)
    ensures IsKnownChain(sites, main, chain, f) && chain[|chain| - 1] == s
  {
    if s.caller == main {
      chain := [s];
    } else {
      var p :| WalkFromTo(KnownArcs(sites), p, main, s.caller);
      var before := ChainAlong(sites, p);
      chain := before + [s];
    }
  }

  /** Over all known calls the chains to quiet functions stay quiet exactly if no overlooked call names a
      quiet function, other than from a quiet function or from a quiet site of main. */
  lemma KnownChainsStayQuiet(sites: seq<CallSite>, reachable: set<nat>, main: nat, concurrent: set<nat>,
                             incomplete: set<nat>, quietSites: set<CallSite>, order: seq<nat>)
    requires AdmittedInOrder(sites, reachable, main, concurrent, incomplete, quietSites, order)
    ensures (forall chain, f ::
      f in order && IsKnownChain(sites, main, chain, f) ==> StaysQuiet(main, quietSites, order, chain))
       <==> OverlooksNothing(sites, reachable, main, quietSites, order)
  {
    if OverlooksNothing(sites, reachable, main, quietSites, order) {
      forall chain, f | f in order && IsKnownChain(sites, main, chain, f)
        ensures StaysQuiet(main, quietSites, order, chain) {
        KnownChainIsQuiet(sites, reachable, main, concurrent, incomplete, quietSites, order, chain, f);
      }
    }
    if forall chain, f ::
      f in order && IsKnownChain(sites, main, chain, f) ==> StaysQuiet(main, quietSites, order, chain) {
      forall s, f | IsOverlooked(sites, reachable, main, s) && f in order && s.Names(f)
        ensures IsQuietCall(main, quietSites, order, s) {
        var chain := OverlookedChain(sites, main, s, f);
        assert StaysQuiet(main, quietSites, order, chain);
      }
    }
  }

  /** Which is so if no call site has several targets. */
  lemma SingleTargetsAreFollowed(sites: seq<CallSite>, reachable: set<nat>, main: nat, quietSites: set<CallSite>,
                                 order: seq<nat>)
    requires forall x :: x in reachable <==> LedFrom(CallArcs(sites), [main], x)
    requires forall s :: s in sites ==> |s.targets| <= 1
    ensures OverlooksNothing(sites, reachable, main, quietSites, order)
  {
    assert KnownArcs(sites) == CallArcs(sites) by { SingleTargetArcs(sites); }
    forall s: CallSite, f: nat | s in sites && Leads(KnownArcs(sites), main, s.caller) && s.Names(f)
      ensures !IsOverlooked(sites, reachable, main, s) {
      assert LedFrom(CallArcs(sites), [main], s.caller);
      assert s.Callee() == Some(f);
    }
  }

  lemma SingleTargetArcs(sites: seq<CallSite>)
    requires forall s :: s in sites ==> |s.targets| <= 1
    ensures KnownArcs(sites) == CallArcs(sites)
  {
    forall a: nat, b: nat ensures (a, b) in KnownArcs(sites) <==> (a, b) in CallArcs(sites) {
      KnownArc(sites, a, b);
      if s :| s in sites && s.caller == a && s.Names(b) { assert s.Callee() == Some(b); }
      if s :| s in sites && s.Callee().Some? && (s.caller, s.Callee().value) == (a, b) { assert s.Names(b); }
    }
  }

  /** The call is one that the analysis follows. */
  ghost predicate IsFollowed(reachable: set<nat>, s: CallSite) {
    s.Callee().Some? && s.caller in reachable
  }

  ghost predicate PassesMain(main: nat, chain: seq<CallSite>) {
    exists s :: s in chain && s.caller == main
  }

  /** A cycle of known calls through a quiet function. */
  ghost predicate IsLoop(sites: seq<CallSite>, order: seq<nat>, chain: seq<CallSite>, t: nat) {
    t in order && IsKnownChain(sites, t, chain, t)
  }

  ghost predicate LoopsPassMain(sites: seq<CallSite>, main: nat, order: seq<nat>) {
    forall chain, t :: IsLoop(sites, order, chain, t) ==> PassesMain(main, chain)
  }

  ghost predicate EndsFollowed(reachable: set<nat>, chain: seq<CallSite>) {
    chain != [] && IsFollowed(reachable, chain[|chain| - 1])
  }

  ghost predicate OtherLoopsPassMain(sites: seq<CallSite>, reachable: set<nat>, main: nat, order: seq<nat>) {
    forall chain, t :: IsLoop(sites, order, chain, t) && !EndsFollowed(reachable, chain) ==> PassesMain(main, chain)
  }

  lemma LoopEndIsFollowed(sites: seq<CallSite>, reachable: set<nat>, main: nat, concurrent: set<nat>,
                          incomplete: set<nat>, quietSites: set<CallSite>, order: seq<nat>, chain: seq<CallSite>,
                          t: nat)
    requires AdmittedInOrder(sites, reachable, main, concurrent, incomplete, quietSites, order)
    requires OtherLoopsPassMain(sites, reachable, main, order) && IsLoop(sites, order, chain, t)
      && !PassesMain(main, chain)
    ensures IsFollowed(reachable, chain[|chain| - 1]) && chain[|chain| - 1].caller in order
  {
    var last := chain[|chain| - 1];
    assert last in chain && EndsFollowed(reachable, chain);
    FollowedCallIsQuiet(sites, reachable, main, concurrent, incomplete, quietSites, order, last, t);
  }

  lemma TurnedLoop(sites: seq<CallSite>, main: nat, order: seq<nat>, chain: seq<CallSite>, t: nat, i: nat)
    requires IsLoop(sites, order, chain, t) && !PassesMain(main, chain) && 0 < i < |chain| && chain[i].caller in order
    ensures IsLoop(sites, order, chain[i..] + chain[..i], chain[i].caller) && !PassesMain(main, chain[i..] + chain[..i])
    ensures (chain[i..] + chain[..i])[|chain[i..] + chain[..i]| - 1] == chain[i - 1]
  {
    RotateLoop(sites, chain, t, i);
  }

  lemma {:induction false} LoopIsFollowed(sites: seq<CallSite>, reachable: set<nat>, main: nat, concurrent: set<nat>,
                                          incomplete: set<nat>, quietSites: set<CallSite>, order: seq<nat>,
                                          chain: seq<CallSite>, t: nat, i: nat)
    requires AdmittedInOrder(sites, reachable, main, concurrent, incomplete, quietSites, order)
    requires OtherLoopsPassMain(sites, reachable, main, order)
    requires IsLoop(sites, order, chain, t) && !PassesMain(main, chain) && i < |chain|
    ensures IsFollowed(reachable, chain[i]) && chain[i].caller in order
    decreases |chain| - i
  {
    if i == |chain| - 1 {
      LoopEndIsFollowed(sites, reachable, main, concurrent, incomplete, quietSites, order, chain, t);
    } else {
      LoopIsFollowed(sites, reachable, main, concurrent, incomplete, quietSites, order, chain, t, i + 1);
      TurnedLoop(sites, main, order, chain, t, i + 1);
      LoopEndIsFollowed(sites, reachable, main, concurrent, incomplete, quietSites, order,
                        chain[i + 1..] + chain[..i + 1], chain[i + 1].caller);
    }
  }

  /** The functions that a cycle of followed calls passes. */
  function Callers(chain: seq<CallSite>): (p: seq<nat>)
    ensures |p| == |chain| && forall i :: 0 <= i < |p| ==> p[i] == chain[i].caller
  {
    if chain == [] then [] else [chain[0].caller] + Callers(chain[1..])
  }

  lemma FollowedLoopIsCycle(sites: seq<CallSite>, reachable: set<nat>, order: seq<nat>, chain: seq<CallSite>, t: nat)
    returns (p: seq<nat>)
    requires IsLoop(sites, order, chain, t) && forall i :: 0 <= i < |chain| ==> IsFollowed(reachable, chain[i])
    ensures IsCycle(CallArcs(sites), p) && p[0] == t
    ensures forall v :: v in p ==> v in reachable && exists s :: s in chain && s.caller == v
  {
    p := Callers(chain) + [t];
    forall i | 0 <= i < |p| - 1 ensures (p[i], p[i + 1]) in CallArcs(sites) {
      assert chain[i] in chain && chain[i].Names(p[i + 1]);
      NamedCallee(sites, chain[i], p[i + 1]);
    }
    forall v | v in p ensures v in reachable && exists s :: s in chain && s.caller == v {
      var i :| 0 <= i < |p| && p[i] == v;
      var k := if i < |chain| then i else 0;
      assert IsFollowed(reachable, chain[k]) && chain[k] in chain && chain[k].caller == v;
    }
  }

  lemma FollowedLoopPassesMain(sites: seq<CallSite>, reachable: set<nat>, main: nat, concurrent: set<nat>,
                               incomplete: set<nat>, quietSites: set<CallSite>, order: seq<nat>, chain: seq<CallSite>,
                               t: nat)
    requires AdmittedInOrder(sites, reachable, main, concurrent, incomplete, quietSites, order)
    requires IsLoop(sites, order, chain, t) && forall i :: 0 <= i < |chain| ==> IsFollowed(reachable, chain[i])
    ensures PassesMain(main, chain)
  {
    var p := FollowedLoopIsCycle(sites, reachable, order, chain, t);
    RecursionIsNotQuiet(sites, reachable, main, concurrent, incomplete, quietSites, order, p);
  }

  /** Every known cycle through a quiet function passes main, exactly if those do that come back to one by a call
      that is not followed. */
  lemma LoopsPassMainExactly(sites: seq<CallSite>, reachable: set<nat>, main: nat, concurrent: set<nat>,
                             incomplete: set<nat>, quietSites: set<CallSite>, order: seq<nat>)
    requires AdmittedInOrder(sites, reachable, main, concurrent, incomplete, quietSites, order)
    ensures LoopsPassMain(sites, main, order) <==> OtherLoopsPassMain(sites, reachable, main, order)
  {
    if OtherLoopsPassMain(sites, reachable, main, order) {
      forall chain: seq<CallSite>, t | IsLoop(sites, order, chain, t) ensures PassesMain(main, chain) {
        if !PassesMain(main, chain) {
          forall i | 0 <= i < |chain| ensures IsFollowed(reachable, chain[i]) {
            LoopIsFollowed(sites, reachable, main, concurrent, incomplete, quietSites, order, chain, t, i);
          }
          FollowedLoopPassesMain(sites, reachable, main, concurrent, incomplete, quietSites, order, chain, t);
        }
      }
    }
  }

  /** By known calls, f leads to a creation of threads. */
  ghost predicate CanCreate(sites: seq<CallSite>, f: nat) {
    exists s :: s in sites && s.isCreate && Leads(KnownArcs(sites), f, s.caller)
  }

  /** A call with several targets, led to from f by single-target calls, that names a function which can create
      threads. */
  ghost predicate LetsCreateIn(sites: seq<CallSite>, f: nat, c: CallSite) {
    && c in sites && c.Callee().None? && Leads(CallArcs(sites), f, c.caller)
    && exists w :: c.Names(w) && CanCreate(sites, w)
  }

  lemma SuffixWalk(arcs: Arcs, p: seq<nat>)
    requires IsWalk(arcs, p) && |p| > 1
    ensures (p[0], p[1]) in arcs && IsWalk(arcs, p[1..]) && p[1..][|p[1..]| - 1] == p[|p| - 1]
    ensures Leads(arcs, p[1], p[|p| - 1])
  {
    forall i | 0 <= i < |p| - 2 ensures (p[1..][i], p[1..][i + 1]) in arcs { assert (p[i + 1], p[i + 2]) in arcs; }
    if p[1] != p[|p| - 1] { assert WalkFromTo(arcs, p[1..], p[1], p[|p| - 1]); }
  }

  /** A walk of known calls to a creation either has single targets only or lets the creation in. */
  lemma {:induction false} FirstSeveralTargets(sites: seq<CallSite>, f: nat, p: seq<nat>, s: CallSite)
    requires IsWalk(KnownArcs(sites), p) && Leads(CallArcs(sites), f, p[0]) && s in sites && s.isCreate
      && s.caller == p[|p| - 1]
    ensures Leads(CallArcs(sites), f, s.caller) || exists c :: LetsCreateIn(sites, f, c)
    decreases |p|
  {
    if |p| > 1 {
      SuffixWalk(KnownArcs(sites), p);
      if (p[0], p[1]) in CallArcs(sites) {
        LeadsStep(CallArcs(sites), f, p[0], p[1]);
        FirstSeveralTargets(sites, f, p[1..], s);
      } else {
        KnownArc(sites, p[0], p[1]);
        var c :| c in sites && c.caller == p[0] && c.Names(p[1]);
        NamedCallee(sites, c, p[1]);
        assert CanCreate(sites, p[1]);
        assert LetsCreateIn(sites, f, c);
      }
    }
  }

  lemma SingleArcIsKnown(sites: seq<CallSite>)
    ensures CallArcs(sites) <= KnownArcs(sites)
  {
    forall a: nat, b: nat | (a, b) in CallArcs(sites) ensures (a, b) in KnownArcs(sites) {
      var s :| s in sites && s.Callee().Some? && (s.caller, s.Callee().value) == (a, b);
      KnownArc(sites, a, b);
      assert s.Names(b);
    }
  }

  lemma LetInIsReached(sites: seq<CallSite>, f: nat, c: CallSite)
    requires LetsCreateIn(sites, f, c)
    ensures CanCreate(sites, f)
  {
    var w :| c.Names(w) && CanCreate(sites, w);
    var s :| s in sites && s.isCreate && Leads(KnownArcs(sites), w, s.caller);
    var known := KnownArcs(sites);
    SingleArcIsKnown(sites);
    if f != c.caller { ReachesMonotone(CallArcs(sites), known, f, c.caller); }
    KnownArc(sites, c.caller, w);
    LeadsStep(known, f, c.caller, w);
    LeadsTransitive(known, f, w, s.caller);
  }

  /** Over all known calls a quiet function creates no thread exactly if no call with several targets lets one in. */
  lemma QuietFunctionsMayCreate(program: Program, sites: seq<CallSite>, main: nat, quiet: set<nat>, order: seq<nat>,
                                reachable: set<nat>, concurrent: set<nat>, quietSites: set<CallSite>, f: nat)
    requires IsPhase(program, sites, main, quiet, order, reachable, concurrent, quietSites) && f in quiet
    ensures CanCreate(sites, f) <==> exists c :: LetsCreateIn(sites, f, c)
  {
    if CanCreate(sites, f) {
      var s :| s in sites && s.isCreate && Leads(KnownArcs(sites), f, s.caller);
      QuietFunctionsCreateNothing(program, sites, main, quiet, order, reachable, concurrent, quietSites, f, s);
      var p := [f];
      if f != s.caller { p :| WalkFromTo(KnownArcs(sites), p, f, s.caller); }
      FirstSeveralTargets(sites, f, p, s);
    }
    if c :| LetsCreateIn(sites, f, c) { LetInIsReached(sites, f, c); }
  }

  // ----- Creations that the entries miss -----

  /** A site of main that, by known calls, leads to a creation of threads. */
  ghost predicate IsCreatingCall(sites: seq<CallSite>, main: nat, s: CallSite) {
    s in sites && s.caller == main && (s.isCreate || exists w :: s.Names(w) && CanCreate(sites, w))
  }

  /** A creating call that is no entry: its block is unknown, or it has several targets, or its only target creates
      threads through calls with several targets. */
  ghost predicate IsMissedCreation(sites: seq<CallSite>, main: nat, concurrent: set<nat>, s: CallSite) {
    && IsCreatingCall(sites, main, s)
    && (s.block.None? || (!s.isCreate && (s.Callee().None? || s.Callee().value !in concurrent)))
  }

  /** The call is quiet for coming before the entries, not for coming after the join of all workers. */
  ghost predicate IsEarlySite(program: Program, main: nat, sites: seq<CallSite>, concurrent: set<nat>, call: CallSite) {
    && IsQuietSite(program, main, sites, concurrent, call)
    && !(program.proven && CoversPc(program.blocks, program.functions, program.postJoinPc, call.pc))
  }

  /** The order that the analysis asks for between a quiet call and an entry. */
  ghost predicate IsOrderedBefore(cfg: Arcs, call: CallSite, e: CallSite) {
    call.block.Some? && e.block.Some? && ComesLater(cfg, e, call)
  }

  /** All known creating calls of main come later than an early call, exactly if those do that are no entries. */
  lemma CreationsComeLaterExactly(program: Program, main: nat, sites: seq<CallSite>, concurrent: set<nat>,
                                  call: CallSite)
    requires IsEarlySite(program, main, sites, concurrent, call)
    ensures (forall e :: IsCreatingCall(sites, main, e) ==> IsOrderedBefore(BlockArcs(program.blocks), call, e))
       <==> (forall e :: IsMissedCreation(sites, main, concurrent, e) ==>
               IsOrderedBefore(BlockArcs(program.blocks), call, e))
  {
    forall e | IsCreatingCall(sites, main, e) && !IsMissedCreation(sites, main, concurrent, e)
      ensures IsOrderedBefore(BlockArcs(program.blocks), call, e) {
      assert IsEntry(main, concurrent, e);
    }
  }

  /** The call can be executed after e: further on in e's block, or in a block that a path from e's block enters. */
  ghost predicate MayFollow(cfg: Arcs, e: CallSite, call: CallSite) {
    || e.block.None? || call.block.None? || (e.block == call.block && e.pc < call.pc)
    || Reaches(cfg, e.block.value, call.block.value)
  }

  /** Positions in one block are compared by address only, also if the block lies on a cycle. */
  ghost predicate SharesLoopWithEntry(cfg: Arcs, main: nat, sites: seq<CallSite>, concurrent: set<nat>,
                                      call: CallSite) {
    && call.block.Some? && Reaches(cfg, call.block.value, call.block.value)
    && exists e :: e in sites && IsEntry(main, concurrent, e) && e.block == call.block
  }

  ghost predicate LeadToCreate(sites: seq<CallSite>, reachable: set<nat>, concurrent: set<nat>) {
    forall f :: f in concurrent <==>
      LeadsToCreate(CallArcs(sites), set s | s in sites && s.isCreate && s.caller in reachable :: s.caller, f)
  }

  lemma EntryCreates(sites: seq<CallSite>, reachable: set<nat>, main: nat, concurrent: set<nat>, e: CallSite)
    requires LeadToCreate(sites, reachable, concurrent) && e in sites && IsEntry(main, concurrent, e)
    ensures IsCreatingCall(sites, main, e)
  {
    if !e.isCreate {
      var w := e.Callee().value;
      var c :| c in (set s | s in sites && s.isCreate && s.caller in reachable :: s.caller)
        && Leads(CallArcs(sites), w, c);
      var s :| s in sites && s.isCreate && s.caller == c;
      SingleArcIsKnown(sites);
      if w != c { ReachesMonotone(CallArcs(sites), KnownArcs(sites), w, c); }
      assert e.Names(w) && CanCreate(sites, w);
    }
  }

  lemma EarlyFollowsNoEntry(program: Program, main: nat, sites: seq<CallSite>, concurrent: set<nat>, call: CallSite,
                            e: CallSite)
    requires IsEarlySite(program, main, sites, concurrent, call) && e in sites && IsEntry(main, concurrent, e)
    ensures MayFollow(BlockArcs(program.blocks), e, call)
       <==> e.block == call.block && Reaches(BlockArcs(program.blocks), call.block.value, call.block.value)
  {
    assert ComesLater(BlockArcs(program.blocks), e, call);
  }

  /** An early call is never executed after a known creating call of main, exactly if it cannot follow those that
      are no entries, and shares no block on a cycle with an entry. */
  lemma NeverAfterCreationExactly(program: Program, reachable: set<nat>, main: nat, sites: seq<CallSite>,
                                  concurrent: set<nat>, call: CallSite)
    requires LeadToCreate(sites, reachable, concurrent) && IsEarlySite(program, main, sites, concurrent, call)
    ensures (forall e :: IsCreatingCall(sites, main, e) ==> !MayFollow(BlockArcs(program.blocks), e, call))
       <==> (forall e :: IsMissedCreation(sites, main, concurrent, e) ==>
               !MayFollow(BlockArcs(program.blocks), e, call))
            && !SharesLoopWithEntry(BlockArcs(program.blocks), main, sites, concurrent, call)
  {
    forall e | e in sites && IsEntry(main, concurrent, e)
      ensures IsCreatingCall(sites, main, e)
      ensures MayFollow(BlockArcs(program.blocks), e, call)
         <==> e.block == call.block && Reaches(BlockArcs(program.blocks), call.block.value, call.block.value) {
      EntryCreates(sites, reachable, main, concurrent, e);
      EarlyFollowsNoEntry(program, main, sites, concurrent, call, e);
    }
    forall e | IsCreatingCall(sites, main, e) && !IsMissedCreation(sites, main, concurrent, e)
      ensures e in sites && IsEntry(main, concurrent, e) {
    }
  }

  /** Nothing is missed if no site has several targets and the blocks of main's calls are known. */
  lemma SingleTargetsMissNothing(sites: seq<CallSite>, reachable: set<nat>, main: nat, concurrent: set<nat>,
                                 s: CallSite)
    requires forall x :: x in reachable <==> LedFrom(CallArcs(sites), [main], x)
    requires LeadToCreate(sites, reachable, concurrent)
    requires forall c :: c in sites ==> |c.targets| <= 1 && (c.caller == main ==> c.block.Some?)
    ensures !IsMissedCreation(sites, main, concurrent, s)
  {
    if IsCreatingCall(sites, main, s) && !s.isCreate {
      var w: nat :| s.Names(w) && CanCreate(sites, w);
      var c :| c in sites && c.isCreate && Leads(KnownArcs(sites), w, c.caller);
      SingleTargetArcs(sites);
      KnownArc(sites, main, w);
      LeadsStep(CallArcs(sites), main, main, w);
      LeadsTransitive(CallArcs(sites), main, w, c.caller);
      assert LedFrom(CallArcs(sites), [main], c.caller);
      assert LeadsToCreate(CallArcs(sites), set x | x in sites && x.isCreate && x.caller in reachable :: x.caller, w);
      assert s.Callee() == Some(w);
    }
  }

  lemma AdmittedIsCalled(sites: seq<CallSite>, reachable: set<nat>, main: nat, concurrent: set<nat>,
                         incomplete: set<nat>, quietSites: set<CallSite>, order: seq<nat>, t: nat)
    requires AdmittedInOrder(sites, reachable, main, concurrent, incomplete, quietSites, order) && t in order
    ensures IsCalled(sites, reachable, t)
  {
    var j :| 0 <= j < |order| && order[j] == t;
    assert Admits(sites, reachable, main, concurrent, incomplete, quietSites, Before(order, j), t);
  }

  lemma SingleTargetLoopIsFollowed(sites: seq<CallSite>, reachable: set<nat>, main: nat, order: seq<nat>,
                                   chain: seq<CallSite>, t: nat)
    requires forall x :: x in reachable <==> LedFrom(CallArcs(sites), [main], x)
    requires (forall s :: s in sites ==> |s.targets| <= 1) && IsLoop(sites, order, chain, t)
    requires IsCalled(sites, reachable, t)
    ensures EndsFollowed(reachable, chain)
  {
    var last := chain[|chain| - 1];
    assert last in chain && last.Callee() == Some(t);
    ChainLeads(sites, t, chain, t);
    SingleTargetArcs(sites);
    CalleesAreReachable(sites, main, reachable, t, last.caller);
  }

  /** Nor does any cycle of calls avoid main then. */
  lemma SingleTargetLoopsPassMain(sites: seq<CallSite>, reachable: set<nat>, main: nat, concurrent: set<nat>,
                                  incomplete: set<nat>, quietSites: set<CallSite>, order: seq<nat>)
    requires AdmittedInOrder(sites, reachable, main, concurrent, incomplete, quietSites, order)
    requires forall x :: x in reachable <==> LedFrom(CallArcs(sites), [main], x)
    requires forall s :: s in sites ==> |s.targets| <= 1
    ensures LoopsPassMain(sites, main, order)
  {
    forall chain: seq<CallSite>, t: nat | IsLoop(sites, order, chain, t) ensures EndsFollowed(reachable, chain) {
      AdmittedIsCalled(sites, reachable, main, concurrent, incomplete, quietSites, order, t);
      SingleTargetLoopIsFollowed(sites, reachable, main, order, chain, t);
    }
    LoopsPassMainExactly(sites, reachable, main, concurrent, incomplete, quietSites, order);
  }
}

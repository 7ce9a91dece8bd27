/** What the analyses of roles, returns and failing paths find, in terms of blocks, calls and their targets. */
module ReturnMeaning {
  import opened Events
  import opened Graphs
  import opened Reachability
  import opened Calls
  import opened Nonreturning

  /** A walk, step by step. */
  lemma WalkBySteps(arcs: Arcs, p: seq<nat>)
    ensures IsWalk(arcs, p) <==> p != [] && forall i {:trigger p[i]} :: 0 <= i < |p| - 1 ==> (p[i], p[i + 1]) in arcs
  {
  }

  // ----- Functions of a role -----

  /** a has a call that may go to the known function b. */
  ghost predicate MayCall(calls: seq<CallSite>, functions: map<nat, FunctionInfo>, a: nat, b: nat) {
    b in functions && exists c :: c in calls && c.caller == a && Target(true, b) in c.targets
  }

  ghost predicate IsCallPath(calls: seq<CallSite>, functions: map<nat, FunctionInfo>, p: seq<nat>) {
    p != [] && forall i :: 0 <= i < |p| - 1 ==> MayCall(calls, functions, p[i], p[i + 1])
  }

  lemma CallIsArc(calls: seq<CallSite>, functions: map<nat, FunctionInfo>, a: nat, b: nat)
    ensures (a, b) in FunctionGraph(calls, functions) <==> MayCall(calls, functions, a, b)
  {
    if (a, b) in FunctionGraph(calls, functions) {
      var c, t :| c in calls && t in c.targets && t.isLocal && t.pc in functions && (c.caller, t.pc) == (a, b);
      assert t == Target(true, b);
    }
    if b in functions {
      if c :| c in calls && c.caller == a && Target(true, b) in c.targets { assert Target(true, b).isLocal; }
    }
  }

  /** Calls lead from a to b, or a is b. */
  lemma LedByCalls(calls: seq<CallSite>, functions: map<nat, FunctionInfo>, a: nat, b: nat)
    ensures Leads(FunctionGraph(calls, functions), a, b)
       <==> exists p :: IsCallPath(calls, functions, p) && p[0] == a && p[|p| - 1] == b
  {
    var arcs := FunctionGraph(calls, functions);
    forall x: nat, y: nat ensures (x, y) in arcs <==> MayCall(calls, functions, x, y) {
      CallIsArc(calls, functions, x, y);
    }
    if Leads(arcs, a, b) {
      var p := [a];
      if a != b { p :| WalkFromTo(arcs, p, a, b); }
      WalkBySteps(arcs, p);
      assert IsCallPath(calls, functions, p);
    }
    if p :| IsCallPath(calls, functions, p) && p[0] == a && p[|p| - 1] == b {
      WalkBySteps(arcs, p);
      if |p| > 1 { assert WalkFromTo(arcs, p, a, b); }
    }
  }

  // ----- Blocks that can return -----

  predicate HasReturn(blocks: map<nat, BlockInfo>, b: nat) {
    b in blocks && blocks[b].hasReturn
  }

  predicate MayPass(blocks: map<nat, BlockInfo>, a: nat, b: nat) {
    a in blocks && b in blocks[a].successors
  }

  /** Inside the function control passes along p to a return, past no block that was marked before. */
  ghost predicate Returns(f: FunctionInfo, blocks: map<nat, BlockInfo>, marked: set<nat>, p: seq<nat>) {
    && p != [] && (forall i :: 0 <= i < |p| ==> p[i] in f.blocks && p[i] !in marked)
    && (forall i :: 0 <= i < |p| - 1 ==> MayPass(blocks, p[i], p[i + 1])) && HasReturn(blocks, p[|p| - 1])
  }

  ghost predicate IsNewlyMarked(f: FunctionInfo, blocks: map<nat, BlockInfo>, marked: set<nat>, b: nat) {
    exists p :: Returns(f, blocks, marked, p) && p[0] == b
  }

  /** The marking after all functions, each searched in the blocks that are not marked yet. */
  ghost predicate IsMarked(functions: seq<FunctionInfo>, blocks: map<nat, BlockInfo>, marked: set<nat>) {
    if functions == [] then marked == {}
    else
      var n := |functions| - 1;
      exists before :: IsMarked(functions[..n], blocks, before) && IsNextMarking(functions[n], blocks, before, marked)
  }

  ghost predicate IsNextMarking(f: FunctionInfo, blocks: map<nat, BlockInfo>, before: set<nat>, after: set<nat>) {
    forall b :: b in after <==> b in before || IsNewlyMarked(f, blocks, before, b)
  }

  /** The edges between unmarked blocks, in their own direction. */
  ghost function Unmarked(f: FunctionInfo, blocks: map<nat, BlockInfo>, marked: set<nat>): Arcs {
    set e | e in Inside(f, blocks) && e.0 !in marked && e.1 !in marked
  }

  lemma PassIsArc(f: FunctionInfo, blocks: map<nat, BlockInfo>, marked: set<nat>, a: nat, b: nat)
    ensures (a, b) in Unmarked(f, blocks, marked)
       <==> a in f.blocks && b in f.blocks && a !in marked && b !in marked && MayPass(blocks, a, b)
    ensures (b, a) in Open(f, blocks, marked) <==> (a, b) in Unmarked(f, blocks, marked)
  {
    if (b, a) in Open(f, blocks, marked) {
      var e :| e in Inside(f, blocks) && e.0 !in marked && e.1 !in marked && (e.1, e.0) == (b, a);
      assert e == (a, b);
    }
    if (a, b) in Unmarked(f, blocks, marked) { assert ((a, b).1, (a, b).0) in Open(f, blocks, marked); }
  }

  lemma ReturningWalk(f: FunctionInfo, blocks: map<nat, BlockInfo>, marked: set<nat>, p: seq<nat>)
    requires p != [] && p[|p| - 1] in Exits(f, blocks) - marked
    ensures IsWalk(Unmarked(f, blocks, marked), p) <==> Returns(f, blocks, marked, p)
  {
    forall a: nat, b: nat
      ensures (a, b) in Unmarked(f, blocks, marked)
         <==> a in f.blocks && b in f.blocks && a !in marked && b !in marked && MayPass(blocks, a, b) {
      PassIsArc(f, blocks, marked, a, b);
    }
    WalkBySteps(Unmarked(f, blocks, marked), p);
  }

  lemma FoundIsNewlyMarked(f: FunctionInfo, blocks: map<nat, BlockInfo>, marked: set<nat>, b: nat)
    ensures IsFound(f, blocks, marked, b) <==> IsNewlyMarked(f, blocks, marked, b)
  {
    var arcs := Unmarked(f, blocks, marked);
    assert Open(f, blocks, marked) == Reversed(arcs) by {
      forall u: nat, v: nat ensures (u, v) in Open(f, blocks, marked) <==> (u, v) in Reversed(arcs) {
        PassIsArc(f, blocks, marked, v, u);
      }
    }
    if x :| x in Exits(f, blocks) - marked && Leads(Open(f, blocks, marked), x, b) {
      ReversedLeads(arcs, b, x);
      var p := [b];
      if b != x { p :| WalkFromTo(arcs, p, b, x); }
      ReturningWalk(f, blocks, marked, p);
    }
    if p :| Returns(f, blocks, marked, p) && p[0] == b {
      var x := p[|p| - 1];
      ReturningWalk(f, blocks, marked, p);
      if |p| > 1 { assert WalkFromTo(arcs, p, b, x); }
      ReversedLeads(arcs, b, x);
    }
  }

  /** The search over the functions marks what a return can be reached from, function by function. */
  lemma {:induction false} MarkedByPaths(functions: seq<FunctionInfo>, blocks: map<nat, BlockInfo>, marked: set<nat>)
    ensures IsMarking(functions, blocks, marked) <==> IsMarked(functions, blocks, marked)
    decreases |functions|
  {
    if functions != [] {
      var n := |functions| - 1;
      forall before: set<nat>
        ensures IsMarking(functions[..n], blocks, before) <==> IsMarked(functions[..n], blocks, before)
        ensures Adds(functions[n], blocks, before, marked) <==> IsNextMarking(functions[n], blocks, before, marked) {
        MarkedByPaths(functions[..n], blocks, before);
        forall b: nat ensures IsFound(functions[n], blocks, before, b)
          <==> IsNewlyMarked(functions[n], blocks, before, b) {
          FoundIsNewlyMarked(functions[n], blocks, before, b);
        }
      }
    }
  }

  /** A block can return if in some function control passes from it to a return. */
  lemma CanReturnByPaths(functions: seq<FunctionInfo>, blocks: map<nat, BlockInfo>, b: nat)
    ensures CanReturn(functions, blocks, b)
       <==> exists i, p :: 0 <= i < |functions| && Returns(functions[i], blocks, {}, p) && p[0] == b
  {
    forall i | 0 <= i < |functions|
      ensures ReturnsFrom(functions[i], blocks, b) <==> IsNewlyMarked(functions[i], blocks, {}, b) {
      FoundReturnsFrom(functions[i], blocks, b);
      FoundIsNewlyMarked(functions[i], blocks, {}, b);
    }
    if i, p :| 0 <= i < |functions| && Returns(functions[i], blocks, {}, p) && p[0] == b {
      assert IsNewlyMarked(functions[i], blocks, {}, b);
    }
  }

  lemma FoundReturnsFrom(f: FunctionInfo, blocks: map<nat, BlockInfo>, b: nat)
    ensures IsFound(f, blocks, {}, b) <==> ReturnsFrom(f, blocks, b)
  {
    assert Open(f, blocks, {}) == Reversed(Inside(f, blocks)) by {
      forall u: nat, v: nat ensures (u, v) in Open(f, blocks, {}) <==> (u, v) in Reversed(Inside(f, blocks)) {
        PassIsArc(f, blocks, {}, v, u);
      }
    }
    forall x: nat ensures Leads(Open(f, blocks, {}), x, b) <==> Leads(Inside(f, blocks), b, x) {
      ReversedLeads(Inside(f, blocks), b, x);
    }
  }

  // ----- Functions called on failing paths only -----

  /** The call is known to go to t and nowhere else. */
  predicate GoesTo(functions: map<nat, FunctionInfo>, c: CallSite, t: nat) {
    c.targets == [Target(true, t)] && t in functions
  }

  /** The call's function is understood, and no return can be reached from the call's block. */
  predicate CannotReturn(functions: map<nat, FunctionInfo>, returning: set<nat>, c: CallSite) {
    && c.caller in functions && functions[c.caller].returning != None
    && !(c.block.Some? && c.block.value in returning)
  }

  /** t is called, is no start function, and every call of it cannot return or is made by a failing function. */
  ghost predicate FollowsFailing(calls: seq<CallSite>, functions: map<nat, FunctionInfo>, returning: set<nat>,
                                 roots: set<nat>, failing: set<nat>, t: nat) {
    && t !in roots && (exists c :: c in calls && GoesTo(functions, c, t))
    && forall c :: c in calls && GoesTo(functions, c, t) ==>
         CannotReturn(functions, returning, c) || c.caller in failing
  }

  ghost predicate HoldsAllFailing(calls: seq<CallSite>, functions: map<nat, FunctionInfo>, returning: set<nat>,
                                  roots: set<nat>, failing: set<nat>) {
    forall t :: FollowsFailing(calls, functions, returning, roots, failing, t) ==> t in failing
  }

  /** An indirect call of a running function that is no stub, with targets unknown. */
  predicate IsOpenCall(functions: map<nat, FunctionInfo>, running: set<nat>, s: IndirectSite) {
    s.caller in functions && functions[s.caller].isPlt == false && s.caller in running && s.complete == false
  }

  lemma AdmittedFollows(calls: seq<CallSite>, functions: map<nat, FunctionInfo>, returning: set<nat>,
                        roots: set<nat>, failing: set<nat>, t: nat)
    ensures Admits(calls, functions, returning, roots, failing, t)
       <==> FollowsFailing(calls, functions, returning, roots, failing, t)
  {
    forall c: CallSite
      ensures CallsOnly(functions, c, t) <==> GoesTo(functions, c, t)
      ensures IsFailing(functions, returning, c) <==> CannotReturn(functions, returning, c) {
    }
  }

  /** With an open call nothing is reported; otherwise the least set that holds every function which follows from it. */
  lemma FailingIsLeast(calls: seq<CallSite>, indirect: seq<IndirectSite>, functions: map<nat, FunctionInfo>,
                       returning: set<nat>, roots: set<nat>, running: set<nat>, order: seq<nat>, failing: set<nat>,
                       other: set<nat>)
    requires IsAdmission(calls, functions, returning, roots, order, failing)
    requires if exists s :: s in indirect && MayGoAnywhere(functions, running, s) then failing == {}
             else IsClosed(calls, functions, returning, roots, failing)
    ensures (exists s :: s in indirect && IsOpenCall(functions, running, s)) ==> failing == {}
    ensures (exists s :: s in indirect && IsOpenCall(functions, running, s))
            || HoldsAllFailing(calls, functions, returning, roots, failing)
    ensures HoldsAllFailing(calls, functions, returning, roots, other) ==> failing <= other
  {
    forall s: IndirectSite ensures MayGoAnywhere(functions, running, s) <==> IsOpenCall(functions, running, s) {}
    forall admitted: set<nat>, t: nat
      ensures Admits(calls, functions, returning, roots, admitted, t)
         <==> FollowsFailing(calls, functions, returning, roots, admitted, t) {
      AdmittedFollows(calls, functions, returning, roots, admitted, t);
    }
    if HoldsAllFailing(calls, functions, returning, roots, other) {
      assert IsClosed(calls, functions, returning, roots, other);
      AdmissionIsLeast(calls, functions, returning, roots, order, other, |order|);
    }
  }
}

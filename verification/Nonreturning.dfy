/** Which functions belong to a thread role, which blocks can still return, and which functions are
    called on failing paths only. */
module Nonreturning {
  import opened Events
  import opened Graphs
  import opened Reachability
  import opened Calls

  datatype IndirectSite = IndirectSite(caller: nat, complete: bool)

  /** returning is None if the recovery did not determine whether the function returns. */
  datatype FunctionInfo = FunctionInfo(blocks: set<nat>, isPlt: bool, returning: Option<bool>)

  datatype BlockInfo = BlockInfo(successors: seq<nat>, hasReturn: bool)

  // ----- Functions of a role -----

  function FunctionGraph(calls: seq<CallSite>, functions: map<nat, FunctionInfo>): Arcs {
    set c, t | c in calls && t in c.targets && t.isLocal && t.pc in functions :: (c.caller, t.pc)
  }

  function LocalRoots(targets: seq<Target>): (roots: seq<nat>)
    ensures forall f :: f in roots <==> Target(true, f) in targets
  {
    if targets == [] then [] else (if targets[0].isLocal then [targets[0].pc] else []) + LocalRoots(targets[1..])
  }

  /** A role runs exactly the functions that known calls reach from its start functions. */
  method RoleFunctions(calls: seq<CallSite>, functions: map<nat, FunctionInfo>, roles: seq<seq<Target>>)
    returns (result: seq<set<nat>>)
    ensures |result| == |roles|
    ensures forall r, f :: 0 <= r < |roles| ==>
      (f in result[r] <==> exists s :: Target(true, s) in roles[r] && Leads(FunctionGraph(calls, functions), s, f))
  {
    var graph := FunctionGraph(calls, functions);
    result := [];
    for i := 0 to |roles|
      invariant |result| == i
      invariant forall r, f :: 0 <= r < i ==> (f in result[r] <==> LedFrom(graph, LocalRoots(roles[r]), f))
    {
      var seen := Closure(graph, LocalRoots(roles[i]));
      result := result + [seen];
    }
    forall r, f | 0 <= r < |roles|
      ensures LedFrom(graph, LocalRoots(roles[r]), f) <==> exists s ::
        Target(true, s) in roles[r] && Leads(graph, s, f) {
      if s :| s in LocalRoots(roles[r]) && Leads(graph, s, f) { assert Target(true, s) in roles[r]; }
      if s :| Target(true, s) in roles[r] && Leads(graph, s, f) { assert s in LocalRoots(roles[r]); }
    }
  }

  // ----- Blocks that can return -----

  /** The edges between the blocks of one function. */
  function Inside(f: FunctionInfo, blocks: map<nat, BlockInfo>): Arcs {
    set b, t | b in f.blocks && b in blocks && t in blocks[b].successors && t in f.blocks :: (b, t)
  }

  function Exits(f: FunctionInfo, blocks: map<nat, BlockInfo>): set<nat> {
    set b | b in f.blocks && b in blocks && blocks[b].hasReturn
  }

  ghost predicate ReturnsFrom(f: FunctionInfo, blocks: map<nat, BlockInfo>, b: nat) {
    exists x :: x in Exits(f, blocks) && Leads(Inside(f, blocks), b, x)
  }

  ghost predicate CanReturn(functions: seq<FunctionInfo>, blocks: map<nat, BlockInfo>, b: nat) {
    exists i :: 0 <= i < |functions| && ReturnsFrom(functions[i], blocks, b)
  }

  /** No block belongs to two functions. */
  ghost predicate AreDisjoint(functions: seq<FunctionInfo>) {
    forall i, j :: 0 <= i < j < |functions| ==> functions[i].blocks !! functions[j].blocks
  }

  /** The edges that the search of f walks backwards: it stops at blocks that are marked already. */
  function Open(f: FunctionInfo, blocks: map<nat, BlockInfo>, marked: set<nat>): Arcs {
    set e | e in Inside(f, blocks) && e.0 !in marked && e.1 !in marked :: (e.1, e.0)
  }

  ghost predicate IsFound(f: FunctionInfo, blocks: map<nat, BlockInfo>, marked: set<nat>, b: nat) {
    exists x :: x in Exits(f, blocks) - marked && Leads(Open(f, blocks, marked), x, b)
  }

  ghost predicate Adds(f: FunctionInfo, blocks: map<nat, BlockInfo>, before: set<nat>, after: set<nat>) {
    forall b :: b in after <==> b in before || IsFound(f, blocks, before, b)
  }

  /** One function's search after another, all marking the same set. */
  ghost predicate IsMarking(functions: seq<FunctionInfo>, blocks: map<nat, BlockInfo>, marked: set<nat>)
  {
    if functions == [] then marked == {}
    else
      var n := |functions| - 1;
      exists before :: IsMarking(functions[..n], blocks, before) && Adds(functions[n], blocks, before, marked)
  }

  /** The marking is determined by the functions in their order. */
  lemma {:induction false} MarkingIsUnique(functions: seq<FunctionInfo>, blocks: map<nat, BlockInfo>, a: set<nat>,
                                           b: set<nat>)
    requires IsMarking(functions, blocks, a) && IsMarking(functions, blocks, b)
    ensures a == b
    decreases |functions|
  {
    if functions != [] {
      var n := |functions| - 1;
      var x :| IsMarking(functions[..n], blocks, x) && Adds(functions[n], blocks, x, a);
      var y :| IsMarking(functions[..n], blocks, y) && Adds(functions[n], blocks, y, b);
      MarkingIsUnique(functions[..n], blocks, x, y);
    }
  }

  method MarkFunction(f: FunctionInfo, blocks: map<nat, BlockInfo>, marked: set<nat>) returns (next: set<nat>)
    ensures Adds(f, blocks, marked, next)
  {
    var pending := Listed(Exits(f, blocks) - marked);
    var found := Closure(Open(f, blocks, marked), pending);
    next := marked + found;
    forall b ensures LedFrom(Open(f, blocks, marked), pending, b) <==> IsFound(f, blocks, marked, b) {
      if x :| x in pending && Leads(Open(f, blocks, marked), x, b) { assert x in Exits(f, blocks) - marked; }
      if x :| x in Exits(f, blocks) - marked && Leads(Open(f, blocks, marked), x, b) { assert x in pending; }
    }
  }

  method BlocksReachingReturn(functions: seq<FunctionInfo>, blocks: map<nat, BlockInfo>) returns (marked: set<nat>)
    ensures IsMarking(functions, blocks, marked)
    ensures forall b :: b in marked ==> CanReturn(functions, blocks, b)
    ensures StaysExact(functions, blocks) ==> forall b :: b in marked <==> CanReturn(functions, blocks, b)
  {
    marked := {};
    assert functions[..0] == [];
    for i := 0 to |functions|
      invariant IsMarking(functions[..i], blocks, marked)
    {
      var next := MarkFunction(functions[i], blocks, marked);
      assert functions[..i + 1][..i] == functions[..i];
      marked := next;
    }
    assert functions[..|functions|] == functions;
    MarkedCanReturn(functions, blocks, marked);
    if StaysExact(functions, blocks) { ExactIffStaysExact(functions, blocks); }
  }

  // ----- What the marking means -----

  /** Edges of f between blocks that cannot return in any earlier function. */
  ghost function Around(f: FunctionInfo, blocks: map<nat, BlockInfo>, earlier: seq<FunctionInfo>): Arcs {
    set e | e in Inside(f, blocks) && !CanReturn(earlier, blocks, e.0) && !CanReturn(earlier, blocks, e.1)
  }

  /** b reaches a return of f along a path that avoids all blocks which can return in earlier functions. */
  ghost predicate ReturnsAround(f: FunctionInfo, blocks: map<nat, BlockInfo>, earlier: seq<FunctionInfo>, b: nat) {
    exists x :: x in Exits(f, blocks) && !CanReturn(earlier, blocks, x) && Leads(Around(f, blocks, earlier), b, x)
  }

  /** What returns in function n and in no earlier one also does so around the blocks that return earlier. */
  ghost predicate StaysExactAt(functions: seq<FunctionInfo>, blocks: map<nat, BlockInfo>, n: nat)
    requires n < |functions|
  {
    forall b :: ReturnsFrom(functions[n], blocks, b) && !CanReturn(functions[..n], blocks, b) ==>
      ReturnsAround(functions[n], blocks, functions[..n], b)
  }

  ghost predicate StaysExact(functions: seq<FunctionInfo>, blocks: map<nat, BlockInfo>) {
    forall n :: 0 <= n < |functions| ==> StaysExactAt(functions, blocks, n)
  }

  ghost predicate IsExact(functions: seq<FunctionInfo>, blocks: map<nat, BlockInfo>, marked: set<nat>) {
    forall b :: b in marked <==> CanReturn(functions, blocks, b)
  }

  /** After each function the marking is exact. */
  ghost predicate AllAreExact(functions: seq<FunctionInfo>, blocks: map<nat, BlockInfo>) {
    forall n, marked :: 0 <= n <= |functions| && IsMarking(functions[..n], blocks, marked)
      ==> IsExact(functions[..n], blocks, marked)
  }

  /** If the marking so far is exact, the search finds what returns around it. */
  lemma FoundIffAround(f: FunctionInfo, blocks: map<nat, BlockInfo>, earlier: seq<FunctionInfo>, marked: set<nat>,
                       b: nat)
    requires IsExact(earlier, blocks, marked)
    ensures IsFound(f, blocks, marked, b) <==> ReturnsAround(f, blocks, earlier, b)
  {
    var open, around := Open(f, blocks, marked), Around(f, blocks, earlier);
    assert open == Reversed(around) by {
      forall u: nat, v: nat ensures (u, v) in open <==> (u, v) in Reversed(around) {
        assert (v, u) in around <==> (v, u) in Inside(f, blocks) && v !in marked && u !in marked;
      }
    }
    forall x ensures Leads(open, x, b) <==> Leads(around, b, x) { ReversedLeads(around, b, x); }
    if x :| x in Exits(f, blocks) - marked && Leads(open, x, b) { assert Leads(around, b, x); }
    if x :| x in Exits(f, blocks) && !CanReturn(earlier, blocks, x) && Leads(around, b, x) {
      assert x in Exits(f, blocks) - marked;
    }
  }

  lemma AroundIsInside(f: FunctionInfo, blocks: map<nat, BlockInfo>, earlier: seq<FunctionInfo>, b: nat)
    requires ReturnsAround(f, blocks, earlier, b)
    ensures ReturnsFrom(f, blocks, b)
  {
    var x :| x in Exits(f, blocks) && !CanReturn(earlier, blocks, x) && Leads(Around(f, blocks, earlier), b, x);
    if b != x { ReachesMonotone(Around(f, blocks, earlier), Inside(f, blocks), b, x); }
  }

  lemma CanReturnOfMore(functions: seq<FunctionInfo>, blocks: map<nat, BlockInfo>, n: nat, b: nat)
    requires n < |functions|
    ensures CanReturn(functions[..n + 1], blocks, b) <==>
      CanReturn(functions[..n], blocks, b) || ReturnsFrom(functions[n], blocks, b)
  {
    var more := functions[..n + 1];
    if i :| 0 <= i < |more| && ReturnsFrom(more[i], blocks, b) {
      if i < n { assert functions[..n][i] == functions[i]; }
    }
    if i :| 0 <= i < n && ReturnsFrom(functions[..n][i], blocks, b) { assert functions[..n + 1][i] == functions[i]; }
    if ReturnsFrom(functions[n], blocks, b) { assert functions[..n + 1][n] == functions[n]; }
  }

  /** One more function keeps an exact marking exact, exactly if the condition holds of it. */
  lemma StepIsExact(functions: seq<FunctionInfo>, blocks: map<nat, BlockInfo>, n: nat, before: set<nat>,
                    after: set<nat>)
    requires n < |functions| && IsExact(functions[..n], blocks, before) && Adds(functions[n], blocks, before, after)
    ensures IsExact(functions[..n + 1], blocks, after) <==> StaysExactAt(functions, blocks, n)
  {
    forall b: nat ensures b in after <==>
      CanReturn(functions[..n], blocks, b) || ReturnsAround(functions[n], blocks, functions[..n], b) {
      FoundIffAround(functions[n], blocks, functions[..n], before, b);
    }
    forall b: nat { CanReturnOfMore(functions, blocks, n, b); }
    forall b: nat | ReturnsAround(functions[n], blocks, functions[..n], b)
      ensures ReturnsFrom(functions[n], blocks, b) {
      AroundIsInside(functions[n], blocks, functions[..n], b);
    }
  }

  lemma {:induction false} MarkingExists(functions: seq<FunctionInfo>, blocks: map<nat, BlockInfo>)
    returns (marked: set<nat>)
    ensures IsMarking(functions, blocks, marked)
    decreases |functions|
  {
    if functions == [] {
      marked := {};
    } else {
      var f := functions[|functions| - 1];
      var before := MarkingExists(functions[..|functions| - 1], blocks);
      marked := before + set b | b in f.blocks && IsFound(f, blocks, before, b);
      forall b | IsFound(f, blocks, before, b) ensures b in f.blocks { FoundReturns(f, blocks, before, b); }
      assert Adds(f, blocks, before, marked);
    }
  }

  lemma NextMarking(functions: seq<FunctionInfo>, blocks: map<nat, BlockInfo>, n: nat, after: set<nat>)
    returns (before: set<nat>)
    requires n < |functions| && IsMarking(functions[..n + 1], blocks, after)
    ensures IsMarking(functions[..n], blocks, before) && Adds(functions[n], blocks, before, after)
  {
    assert functions[..n + 1][..n] == functions[..n];
    before :| IsMarking(functions[..n], blocks, before) && Adds(functions[n], blocks, before, after);
  }

  lemma NextIsExact(functions: seq<FunctionInfo>, blocks: map<nat, BlockInfo>, n: nat, before: set<nat>,
                    after: set<nat>)
    requires n < |functions| && IsExact(functions[..n], blocks, before) && Adds(functions[n], blocks, before, after)
    requires StaysExact(functions, blocks)
    ensures IsExact(functions[..n + 1], blocks, after)
  {
    StepIsExact(functions, blocks, n, before, after);
    assert StaysExactAt(functions, blocks, n);
  }

  lemma NothingIsExact(functions: seq<FunctionInfo>, blocks: map<nat, BlockInfo>, marked: set<nat>)
    requires IsMarking(functions[..0], blocks, marked)
    ensures IsExact(functions[..0], blocks, marked)
  {
  }

  lemma {:induction false} StaysExactUpTo(functions: seq<FunctionInfo>, blocks: map<nat, BlockInfo>, n: nat,
                                          marked: set<nat>)
    requires n <= |functions| && StaysExact(functions, blocks) && IsMarking(functions[..n], blocks, marked)
    ensures IsExact(functions[..n], blocks, marked)
  {
    if n == 0 {
      NothingIsExact(functions, blocks, marked);
    } else {
      var k := n - 1;
      var before := NextMarking(functions, blocks, k, marked);
      StaysExactUpTo(functions, blocks, k, before);
      NextIsExact(functions, blocks, k, before, marked);
    }
  }

  /** The marking is exact after each function, exactly if what returns in a function and in no earlier one
      always does so around the blocks that return earlier. For the final marking that is enough, but not needed:
      a later function can mark what an earlier one missed. */
  lemma ExactIffStaysExact(functions: seq<FunctionInfo>, blocks: map<nat, BlockInfo>)
    ensures AllAreExact(functions, blocks) <==> StaysExact(functions, blocks)
    ensures StaysExact(functions, blocks) ==> forall marked ::
      IsMarking(functions, blocks, marked) ==> IsExact(functions, blocks, marked)
  {
    if StaysExact(functions, blocks) {
      forall n, marked | 0 <= n <= |functions| && IsMarking(functions[..n], blocks, marked)
        ensures IsExact(functions[..n], blocks, marked) {
        StaysExactUpTo(functions, blocks, n, marked);
      }
      assert functions[..|functions|] == functions;
    }
    if AllAreExact(functions, blocks) {
      forall n | 0 <= n < |functions| ensures StaysExactAt(functions, blocks, n) {
        var after := MarkingExists(functions[..n + 1], blocks);
        var before := NextMarking(functions, blocks, n, after);
        StepIsExact(functions, blocks, n, before, after);
      }
    }
  }

  lemma ReturnsInside(f: FunctionInfo, blocks: map<nat, BlockInfo>, b: nat)
    requires ReturnsFrom(f, blocks, b)
    ensures b in f.blocks
  {
    var x :| x in Exits(f, blocks) && Leads(Inside(f, blocks), b, x);
    if b != x {
      var p :| WalkFromTo(Inside(f, blocks), p, b, x);
      assert (p[0], p[1]) in Inside(f, blocks);
    }
  }

  lemma FoundReturns(f: FunctionInfo, blocks: map<nat, BlockInfo>, marked: set<nat>, b: nat)
    requires IsFound(f, blocks, marked, b)
    ensures ReturnsFrom(f, blocks, b) && b in f.blocks
  {
    var x :| x in Exits(f, blocks) - marked && Leads(Open(f, blocks, marked), x, b);
    var open := Reversed(Open(f, blocks, marked));
    ReversedLeads(Open(f, blocks, marked), x, b);
    if x != b { ReachesMonotone(open, Inside(f, blocks), b, x); }
    ReturnsInside(f, blocks, b);
  }

  /** A block is only marked if it can return, whatever the functions share. */
  lemma {:induction false} MarkedCanReturn(functions: seq<FunctionInfo>, blocks: map<nat, BlockInfo>, marked: set<nat>)
    requires IsMarking(functions, blocks, marked)
    ensures forall b :: b in marked ==> exists i ::
      0 <= i < |functions| && ReturnsFrom(functions[i], blocks, b) && b in functions[i].blocks
    decreases |functions|
  {
    if functions != [] {
      var n := |functions| - 1;
      var before :| IsMarking(functions[..n], blocks, before) && Adds(functions[n], blocks, before, marked);
      MarkedCanReturn(functions[..n], blocks, before);
      forall b | b in marked
        ensures exists i :: 0 <= i < |functions| && ReturnsFrom(functions[i], blocks, b) && b in functions[i].blocks {
        if b in before {
          var i :| 0 <= i < n && ReturnsFrom(functions[..n][i], blocks, b) && b in functions[..n][i].blocks;
          assert functions[..n][i] == functions[i];
        } else {
          FoundReturns(functions[n], blocks, before, b);
        }
      }
    }
  }

  /** If no block belongs to two functions, exactly the blocks that can return are marked. */
  lemma DisjointIsExact(functions: seq<FunctionInfo>, blocks: map<nat, BlockInfo>)
    requires AreDisjoint(functions)
    ensures StaysExact(functions, blocks)
  {
    forall n, b | 0 <= n < |functions| && ReturnsFrom(functions[n], blocks, b)
      ensures ReturnsAround(functions[n], blocks, functions[..n], b) {
      var f, earlier := functions[n], functions[..n];
      forall v | CanReturn(earlier, blocks, v) ensures v !in f.blocks {
        var i :| 0 <= i < n && ReturnsFrom(earlier[i], blocks, v);
        ReturnsInside(earlier[i], blocks, v);
        assert functions[i].blocks !! functions[n].blocks;
      }
      assert Around(f, blocks, earlier) == Inside(f, blocks);
      var x :| x in Exits(f, blocks) && Leads(Inside(f, blocks), b, x);
      assert !CanReturn(earlier, blocks, x);
    }
  }

  /** Otherwise a block can be missed: block 3 of the second function goes on to block 1, which
      returns, but the first function's search has marked block 1 and the second one stops there. */
  lemma SharedBlocksHideReturns() returns (functions: seq<FunctionInfo>, blocks: map<nat, BlockInfo>)
    ensures CanReturn(functions, blocks, 3) && forall marked :: IsMarking(functions, blocks, marked) ==> 3 !in marked
    ensures !StaysExact(functions, blocks)
  {
    var first, second := FunctionInfo({1}, false, None), FunctionInfo({1, 3}, false, None);
    functions := [first, second];
    blocks := map[1 := BlockInfo([], true), 3 := BlockInfo([1], false)];
    assert (3, 1) in Inside(second, blocks);
    EdgeReaches(Inside(second, blocks), 3, 1);
    assert 1 in Exits(second, blocks) && Exits(second, blocks) == {1};
    assert ReturnsFrom(functions[1], blocks, 3);
    forall marked | IsMarking(functions, blocks, marked) ensures 3 !in marked {
      var before :| IsMarking(functions[..1], blocks, before) && Adds(second, blocks, before, marked);
      var none :| IsMarking(functions[..1][..0], blocks, none) && Adds(first, blocks, none, before);
      assert none == {} && 1 in Exits(first, blocks) - none && Leads(Open(first, blocks, none), 1, 1);
      assert IsFound(first, blocks, none, 1);
      if 3 in before { FoundReturns(first, blocks, none, 3); }
    }
    ExactIffStaysExact(functions, blocks);
    var marked := MarkingExists(functions, blocks);
  }

  // ----- Functions that are called on failing paths only -----

  /** An indirect call that may go anywhere, in application code that some role runs. */
  predicate MayGoAnywhere(functions: map<nat, FunctionInfo>, running: set<nat>, s: IndirectSite) {
    !s.complete && s.caller in functions && s.caller in running && !functions[s.caller].isPlt
  }

  /** A call to one known function of the module. */
  predicate IsIncoming(functions: map<nat, FunctionInfo>, c: CallSite) {
    |c.targets| == 1 && c.targets[0].isLocal && c.targets[0].pc in functions
  }

  predicate CallsOnly(functions: map<nat, FunctionInfo>, c: CallSite, t: nat) {
    IsIncoming(functions, c) && c.targets[0].pc == t
  }

  /** The call lies in a block that cannot return, of a function whose behaviour is known. */
  predicate IsFailing(functions: map<nat, FunctionInfo>, returning: set<nat>, c: CallSite) {
    (c.block.Some? ==> c.block.value !in returning) && c.caller in functions && functions[c.caller].returning.Some?
  }

  /** All calls of t that are taken into account are failing or come from admitted functions. */
  predicate Admits(calls: seq<CallSite>, functions: map<nat, FunctionInfo>, returning: set<nat>, roots: set<nat>,
                   admitted: set<nat>, t: nat) {
    && t !in roots && (exists c :: c in calls && CallsOnly(functions, c, t))
    && (forall c :: c in calls && CallsOnly(functions, c, t) ==>
      c.caller in admitted || IsFailing(functions, returning, c))
  }

  ghost predicate IsClosed(calls: seq<CallSite>, functions: map<nat, FunctionInfo>, returning: set<nat>,
                           roots: set<nat>, admitted: set<nat>) {
    forall t :: Admits(calls, functions, returning, roots, admitted, t) ==> t in admitted
  }

  ghost predicate IsClosedOn(among: set<nat>, calls: seq<CallSite>, functions: map<nat, FunctionInfo>,
                             returning: set<nat>, roots: set<nat>, admitted: set<nat>) {
    forall t :: t in among && Admits(calls, functions, returning, roots, admitted, t) ==> t in admitted
  }

  ghost function Earlier(order: seq<nat>, i: nat): set<nat>
    requires i <= |order|
  {
    set f | f in order[..i]
  }

  /** Each function was admitted on account of functions before it. */
  ghost predicate AdmittedInOrder(calls: seq<CallSite>, functions: map<nat, FunctionInfo>, returning: set<nat>,
                                  roots: set<nat>, order: seq<nat>) {
    forall i :: 0 <= i < |order| ==> Admits(calls, functions, returning, roots, Earlier(order, i), order[i])
  }

  ghost predicate IsAdmission(calls: seq<CallSite>, functions: map<nat, FunctionInfo>, returning: set<nat>,
                              roots: set<nat>, order: seq<nat>, admitted: set<nat>) {
    AdmittedInOrder(calls, functions, returning, roots, order) && admitted == Earlier(order, |order|)
  }

  lemma AdmitNext(calls: seq<CallSite>, functions: map<nat, FunctionInfo>, returning: set<nat>, roots: set<nat>,
                  order: seq<nat>, admitted: set<nat>, t: nat)
    requires IsAdmission(calls, functions, returning, roots, order, admitted)
    requires Admits(calls, functions, returning, roots, admitted, t)
    ensures IsAdmission(calls, functions, returning, roots, order + [t], admitted + {t})
  {
    var longer := order + [t];
    assert longer[..|order|] == order[..|order|] == order && longer[..|longer|] == longer;
    forall i | 0 <= i < |longer| ensures Admits(calls, functions, returning, roots, Earlier(longer, i), longer[i]) {
      if i < |order| { assert longer[..i] == order[..i]; }
    }
  }

  method FailingFunctions(calls: seq<CallSite>, functions: map<nat, FunctionInfo>, returning: set<nat>, roots: set<nat>)
    returns (admitted: set<nat>, ghost order: seq<nat>)
    ensures IsAdmission(calls, functions, returning, roots, order, admitted)
    ensures IsClosed(calls, functions, returning, roots, admitted)
  {
    var called := set c | c in calls && IsIncoming(functions, c) :: c.targets[0].pc;
    admitted, order := {}, [];
    var changed := true;
    while changed
      invariant IsAdmission(calls, functions, returning, roots, order, admitted) && admitted <= called
      invariant !changed ==> IsClosedOn(called, calls, functions, returning, roots, admitted)
      decreases called - admitted, changed
    {
      changed := false;
      ghost var before := admitted;
      var left := called;
      while left != {}
        invariant left <= called && before <= admitted <= called
        invariant IsAdmission(calls, functions, returning, roots, order, admitted)
        invariant if changed then before < admitted else before == admitted
        invariant !changed ==> IsClosedOn(called - left, calls, functions, returning, roots, admitted)
      {
        var t :| t in left;
        left := left - {t};
        if t !in admitted && Admits(calls, functions, returning, roots, admitted, t) {
          AdmitNext(calls, functions, returning, roots, order, admitted, t);
          admitted := admitted + {t};
          order := order + [t];
          changed := true;
        }
      }
    }
    forall t | Admits(calls, functions, returning, roots, admitted, t) ensures t in admitted {
      var c :| c in calls && CallsOnly(functions, c, t);
      assert c.targets[0].pc in called;
    }
  }

  /** The analysis gives up if an unresolved call might reach a function past its known callers. */
  method OnlyCalledFromNonreturningPaths(calls: seq<CallSite>, indirect: seq<IndirectSite>,
                                         functions: map<nat, FunctionInfo>, returning: set<nat>, roots: set<nat>,
                                         running: set<nat>)
    returns (admitted: set<nat>, ghost order: seq<nat>)
    ensures IsAdmission(calls, functions, returning, roots, order, admitted)
    ensures if exists s :: s in indirect && MayGoAnywhere(functions, running, s) then admitted == {}
            else IsClosed(calls, functions, returning, roots, admitted)
  {
    if exists s :: s in indirect && MayGoAnywhere(functions, running, s) {
      return {}, [];
    }
    admitted, order := FailingFunctions(calls, functions, returning, roots);
  }

  // ----- What admission means -----

  /** Whatever set the rule closes contains the admitted functions. */
  lemma {:induction false} AdmissionIsLeast(calls: seq<CallSite>, functions: map<nat, FunctionInfo>,
                                            returning: set<nat>, roots: set<nat>, order: seq<nat>, other: set<nat>,
                                            n: nat)
    requires AdmittedInOrder(calls, functions, returning, roots, order) && n <= |order|
    requires IsClosed(calls, functions, returning, roots, other)
    ensures Earlier(order, n) <= other
  {
    if n > 0 {
      AdmissionIsLeast(calls, functions, returning, roots, order, other, n - 1);
      assert Admits(calls, functions, returning, roots, Earlier(order, n - 1), order[n - 1]);
      assert Admits(calls, functions, returning, roots, other, order[n - 1]);
      assert order[..n] == order[..n - 1] + [order[n - 1]];
    }
  }

  ghost predicate HasFailing(functions: map<nat, FunctionInfo>, returning: set<nat>, chain: seq<CallSite>) {
    exists c :: c in chain && IsFailing(functions, returning, c)
  }

  ghost predicate EndsBySeveral(chain: seq<CallSite>) {
    chain != [] && |chain[|chain| - 1].targets| > 1
  }

  ghost predicate HasSeveral(chain: seq<CallSite>) {
    exists c :: c in chain && |c.targets| > 1
  }

  /** A call that is not failing and names an admitted function only was followed: its caller was admitted before. */
  lemma CallerWasAdmitted(calls: seq<CallSite>, functions: map<nat, FunctionInfo>, returning: set<nat>,
                          roots: set<nat>, order: seq<nat>, c: CallSite, j: nat) returns (i: nat)
    requires AdmittedInOrder(calls, functions, returning, roots, order) && j < |order|
    requires c in calls && c.Names(order[j]) && |c.targets| <= 1 && !IsFailing(functions, returning, c)
    ensures i < j && order[i] == c.caller
  {
    assert Admits(calls, functions, returning, roots, Earlier(order, j), order[j]);
    assert c.targets == [Target(true, order[j])] && CallsOnly(functions, c, order[j]);
    i :| 0 <= i < j && order[i] == c.caller;
  }

  lemma AdmittedIsNoRoot(calls: seq<CallSite>, functions: map<nat, FunctionInfo>, returning: set<nat>,
                         roots: set<nat>, order: seq<nat>, t: nat) returns (j: nat)
    requires AdmittedInOrder(calls, functions, returning, roots, order) && t in order
    ensures j < |order| && order[j] == t && t !in roots && forall i :: 0 <= i < j ==> order[i] != t
  {
    j := FirstAdmission(order, t);
    assert Admits(calls, functions, returning, roots, Earlier(order, j), order[j]);
  }

  lemma FirstAdmission(order: seq<nat>, t: nat) returns (j: nat)
    requires t in order
    ensures j < |order| && order[j] == t && forall i :: 0 <= i < j ==> order[i] != t
  {
    j :| 0 <= j < |order| && order[j] == t;
    if i :| 0 <= i < j && order[i] == t {
      assert order[..j][i] == t;
      j := FirstAdmission(order[..j], t);
    }
  }

  /** Along single-target calls none of which fails, the start was admitted before the end. */
  lemma {:induction false} StartWasAdmitted(calls: seq<CallSite>, functions: map<nat, FunctionInfo>,
                                            returning: set<nat>, roots: set<nat>, order: seq<nat>, start: nat,
                                            chain: seq<CallSite>, j: nat) returns (i: nat)
    requires AdmittedInOrder(calls, functions, returning, roots, order) && j < |order|
    requires IsKnownChain(calls, start, chain, order[j]) && !HasFailing(functions, returning, chain)
      && !HasSeveral(chain)
    ensures i < j && order[i] == start
    decreases |chain|
  {
    var n := |chain| - 1;
    assert chain[n] in chain;
    i := CallerWasAdmitted(calls, functions, returning, roots, order, chain[n], j);
    if n > 0 {
      PrefixChain(calls, start, chain, order[j]);
      i := StartWasAdmitted(calls, functions, returning, roots, order, start, chain[..n], i);
    }
  }

  /** Every chain of single-target calls from a thread's start function to an admitted function takes a failing call. */
  lemma ChainsFromRootsFail(calls: seq<CallSite>, functions: map<nat, FunctionInfo>, returning: set<nat>,
                            roots: set<nat>, order: seq<nat>, root: nat, chain: seq<CallSite>, t: nat)
    requires AdmittedInOrder(calls, functions, returning, roots, order) && t in order && root in roots
    requires IsKnownChain(calls, root, chain, t)
    ensures HasFailing(functions, returning, chain) || HasSeveral(chain)
  {
    if !HasFailing(functions, returning, chain) && !HasSeveral(chain) {
      var j := FirstAdmission(order, t);
      var i := StartWasAdmitted(calls, functions, returning, roots, order, root, chain, j);
    }
  }

  /** So does every cycle of such calls through an admitted function: none is admitted for its own recursion. */
  lemma RecursionDoesNotAdmit(calls: seq<CallSite>, functions: map<nat, FunctionInfo>, returning: set<nat>,
                              roots: set<nat>, order: seq<nat>, chain: seq<CallSite>, t: nat)
    requires AdmittedInOrder(calls, functions, returning, roots, order) && t in order
    requires IsKnownChain(calls, t, chain, t)
    ensures HasFailing(functions, returning, chain) || HasSeveral(chain)
  {
    if !HasFailing(functions, returning, chain) && !HasSeveral(chain) {
      var j := FirstAdmission(order, t);
      var i := StartWasAdmitted(calls, functions, returning, roots, order, t, chain, j);
    }
  }

  // ----- Over all known calls -----

  /** A chain of known calls from a start function to an admitted one. */
  ghost predicate IsRootChain(calls: seq<CallSite>, roots: set<nat>, order: seq<nat>, root: nat, chain: seq<CallSite>,
                              t: nat) {
    root in roots && t in order && IsKnownChain(calls, root, chain, t)
  }

  /** What admission is meant to say. */
  ghost predicate RootChainsFail(calls: seq<CallSite>, functions: map<nat, FunctionInfo>, returning: set<nat>,
                                 roots: set<nat>, order: seq<nat>) {
    forall root, chain, t :: IsRootChain(calls, roots, order, root, chain, t)
      ==> HasFailing(functions, returning, chain)
  }

  /** No chain without a failing call enters an admitted function through a site with several targets. */
  ghost predicate NoneEntersBySeveral(calls: seq<CallSite>, functions: map<nat, FunctionInfo>, returning: set<nat>,
                                      roots: set<nat>, order: seq<nat>) {
    forall root, chain, t :: IsRootChain(calls, roots, order, root, chain, t) && EndsBySeveral(chain) ==>
      HasFailing(functions, returning, chain)
  }

  lemma {:induction false} RootChainFails(calls: seq<CallSite>, functions: map<nat, FunctionInfo>,
                                          returning: set<nat>, roots: set<nat>, order: seq<nat>, root: nat,
                                          chain: seq<CallSite>, t: nat)
    requires AdmittedInOrder(calls, functions, returning, roots, order)
      && NoneEntersBySeveral(calls, functions, returning, roots, order)
    requires IsRootChain(calls, roots, order, root, chain, t)
    ensures HasFailing(functions, returning, chain)
    decreases |chain|
  {
    var n := |chain| - 1;
    assert chain[n] in chain;
    if |chain[n].targets| <= 1 && !IsFailing(functions, returning, chain[n]) {
      var j := FirstAdmission(order, t);
      var i := CallerWasAdmitted(calls, functions, returning, roots, order, chain[n], j);
      var k := AdmittedIsNoRoot(calls, functions, returning, roots, order, order[i]);
      PrefixChain(calls, root, chain, t);
      RootChainFails(calls, functions, returning, roots, order, root, chain[..n], chain[n].caller);
      FailingPrefix(functions, returning, chain, n);
    }
  }

  lemma FailingPrefix(functions: map<nat, FunctionInfo>, returning: set<nat>, chain: seq<CallSite>, n: nat)
    requires n <= |chain| && HasFailing(functions, returning, chain[..n])
    ensures HasFailing(functions, returning, chain)
  {
  }

  /** Every known chain from a start function to an admitted one takes a failing call, exactly if none without
      a failing call enters an admitted function through a site with several targets. */
  lemma RootChainsFailExactly(calls: seq<CallSite>, functions: map<nat, FunctionInfo>, returning: set<nat>,
                              roots: set<nat>, order: seq<nat>)
    requires AdmittedInOrder(calls, functions, returning, roots, order)
    ensures RootChainsFail(calls, functions, returning, roots, order)
      <==> NoneEntersBySeveral(calls, functions, returning, roots, order)
  {
    if NoneEntersBySeveral(calls, functions, returning, roots, order) {
      forall root, chain, t | IsRootChain(calls, roots, order, root, chain, t)
        ensures HasFailing(functions, returning, chain) {
        RootChainFails(calls, functions, returning, roots, order, root, chain, t);
      }
    }
  }

  /** Only failing calls have several targets; a caller can check that beforehand. */
  ghost predicate OnlyFailingAreSeveral(calls: seq<CallSite>, functions: map<nat, FunctionInfo>, returning: set<nat>) {
    forall c :: c in calls && |c.targets| > 1 ==> IsFailing(functions, returning, c)
  }

  lemma RootChainsFailIfGuarded(calls: seq<CallSite>, functions: map<nat, FunctionInfo>, returning: set<nat>,
                                roots: set<nat>, order: seq<nat>)
    requires AdmittedInOrder(calls, functions, returning, roots, order)
      && OnlyFailingAreSeveral(calls, functions, returning)
    ensures RootChainsFail(calls, functions, returning, roots, order)
  {
    forall root, chain, t | IsRootChain(calls, roots, order, root, chain, t) && EndsBySeveral(chain)
      ensures HasFailing(functions, returning, chain) {
      assert chain[|chain| - 1] in chain;
    }
    RootChainsFailExactly(calls, functions, returning, roots, order);
  }

  /** A cycle of known calls through an admitted function. */
  ghost predicate IsLoop(calls: seq<CallSite>, order: seq<nat>, chain: seq<CallSite>, t: nat) {
    t in order && IsKnownChain(calls, t, chain, t)
  }

  ghost predicate LoopsFail(calls: seq<CallSite>, functions: map<nat, FunctionInfo>, returning: set<nat>,
                            order: seq<nat>) {
    forall chain, t :: IsLoop(calls, order, chain, t) ==> HasFailing(functions, returning, chain)
  }

  ghost predicate NoneReturnsBySeveral(calls: seq<CallSite>, functions: map<nat, FunctionInfo>, returning: set<nat>,
                                       order: seq<nat>) {
    forall chain, t :: IsLoop(calls, order, chain, t) && EndsBySeveral(chain)
      ==> HasFailing(functions, returning, chain)
  }

  lemma LoopEndIsFollowed(calls: seq<CallSite>, functions: map<nat, FunctionInfo>, returning: set<nat>,
                          roots: set<nat>, order: seq<nat>, chain: seq<CallSite>, t: nat)
    requires AdmittedInOrder(calls, functions, returning, roots, order)
    requires NoneReturnsBySeveral(calls, functions, returning, order)
    requires IsLoop(calls, order, chain, t) && !HasFailing(functions, returning, chain)
    ensures chain[|chain| - 1].caller in order && |chain[|chain| - 1].targets| <= 1
  {
    var last := chain[|chain| - 1];
    assert last in chain && !EndsBySeveral(chain);
    var j := FirstAdmission(order, t);
    var k := CallerWasAdmitted(calls, functions, returning, roots, order, last, j);
  }

  lemma TurnedLoop(calls: seq<CallSite>, functions: map<nat, FunctionInfo>, returning: set<nat>, order: seq<nat>,
                   chain: seq<CallSite>, t: nat, i: nat)
    requires IsLoop(calls, order, chain, t) && !HasFailing(functions, returning, chain)
    requires 0 < i < |chain| && chain[i].caller in order
    ensures IsLoop(calls, order, chain[i..] + chain[..i], chain[i].caller)
    ensures !HasFailing(functions, returning, chain[i..] + chain[..i])
    ensures (chain[i..] + chain[..i])[|chain[i..] + chain[..i]| - 1] == chain[i - 1]
  {
    RotateLoop(calls, chain, t, i);
  }

  /** In a cycle without a failing call, from its end back to call i all callers are admitted and no site has several
      targets. */
  lemma {:induction false} LoopIsFollowed(calls: seq<CallSite>, functions: map<nat, FunctionInfo>,
                                          returning: set<nat>, roots: set<nat>, order: seq<nat>, chain: seq<CallSite>,
                                          t: nat, i: nat)
    requires AdmittedInOrder(calls, functions, returning, roots, order)
    requires NoneReturnsBySeveral(calls, functions, returning, order)
    requires IsLoop(calls, order, chain, t) && !HasFailing(functions, returning, chain) && i < |chain|
    ensures chain[i].caller in order && |chain[i].targets| <= 1
    decreases |chain| - i
  {
    if i == |chain| - 1 {
      LoopEndIsFollowed(calls, functions, returning, roots, order, chain, t);
    } else {
      LoopIsFollowed(calls, functions, returning, roots, order, chain, t, i + 1);
      TurnedLoop(calls, functions, returning, order, chain, t, i + 1);
      LoopEndIsFollowed(calls, functions, returning, roots, order, chain[i + 1..] + chain[..i + 1],
                        chain[i + 1].caller);
    }
  }

  /** Every known cycle through an admitted function takes a failing call, exactly if none without a failing
      call comes back to an admitted function through a site with several targets. */
  lemma LoopsFailExactly(calls: seq<CallSite>, functions: map<nat, FunctionInfo>, returning: set<nat>,
                         roots: set<nat>, order: seq<nat>)
    requires AdmittedInOrder(calls, functions, returning, roots, order)
    ensures LoopsFail(calls, functions, returning, order) <==> NoneReturnsBySeveral(calls, functions, returning, order)
  {
    if NoneReturnsBySeveral(calls, functions, returning, order) {
      forall chain: seq<CallSite>, t | IsLoop(calls, order, chain, t) ensures HasFailing(functions, returning, chain) {
        if !HasFailing(functions, returning, chain) {
          forall i | 0 <= i < |chain| ensures |chain[i].targets| <= 1 {
            LoopIsFollowed(calls, functions, returning, roots, order, chain, t, i);
          }
          RecursionDoesNotAdmit(calls, functions, returning, roots, order, chain, t);
        }
      }
    }
  }

  /** It is so if only failing calls have several targets. */
  lemma LoopsFailIfGuarded(calls: seq<CallSite>, functions: map<nat, FunctionInfo>, returning: set<nat>,
                           roots: set<nat>, order: seq<nat>)
    requires AdmittedInOrder(calls, functions, returning, roots, order)
      && OnlyFailingAreSeveral(calls, functions, returning)
    ensures LoopsFail(calls, functions, returning, order)
  {
    forall chain: seq<CallSite>, t | IsLoop(calls, order, chain, t) && EndsBySeveral(chain)
      ensures HasFailing(functions, returning, chain) {
      assert chain[|chain| - 1] in chain;
    }
    LoopsFailExactly(calls, functions, returning, roots, order);
  }

  /** A call site with several known targets is not looked at: function 2 is admitted although
      function 1, which returns, may call it. */
  lemma SeveralTargetsAreIgnored() returns (calls: seq<CallSite>, functions: map<nat, FunctionInfo>, order: seq<nat>)
    ensures AdmittedInOrder(calls, functions, {10}, {1}, order) && 2 in order
    ensures !RootChainsFail(calls, functions, {10}, {1}, order)
  {
    functions := map[1 := FunctionInfo({10, 11}, false, Some(true)), 2 := FunctionInfo({20}, false, Some(true)),
                     3 := FunctionInfo({30}, false, Some(true))];
    var failing := CallSite(1, 0, Some(11), [Target(true, 2)], false);
    var several := CallSite(1, 0, Some(10), [Target(true, 2), Target(true, 3)], false);
    calls := [failing, several];
    order := [2];
    assert failing in calls && several in calls && CallsOnly(functions, failing, 2);
    assert Admits(calls, functions, {10}, {1}, Earlier(order, 0), 2);
    assert several.targets[0] == Target(true, 2) && several.Names(2);
    assert IsRootChain(calls, {1}, order, 1, [several], 2) && !HasFailing(functions, {10}, [several]);
  }
}

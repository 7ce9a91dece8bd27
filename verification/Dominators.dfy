/** Iterative dominators of a function's blocks, and the answer they give about the join of all workers. */
module Dominators {
  import opened Events
  import opened Graphs
  import opened Reachability

  // ----- Dominators by fixpoint -----

  /** Blocks are named by the address they start at. */
  type Flow = set<(nat, nat)>

  predicate HasPredecessor(flow: Flow, v: nat) {
    exists e :: e in flow && e.1 == v
  }

  /** Where paths start: the entry, or a node that nothing leads to. */
  ghost predicate IsSource(nodes: set<nat>, flow: Flow, entry: nat, v: nat) {
    v in nodes && (v == entry || !HasPredecessor(flow, v))
  }

  ghost predicate IsFlowPath(nodes: set<nat>, flow: Flow, entry: nat, p: seq<nat>) {
    IsWalk(flow, p) && IsSource(nodes, flow, entry, p[0])
  }

  ghost predicate PathTo(nodes: set<nat>, flow: Flow, entry: nat, p: seq<nat>, v: nat) {
    IsFlowPath(nodes, flow, entry, p) && p[|p| - 1] == v
  }

  ghost predicate OnAllPaths(nodes: set<nat>, flow: Flow, entry: nat, d: nat, v: nat) {
    forall p :: PathTo(nodes, flow, entry, p, v) ==> d in p
  }

  ghost predicate Avoidable(nodes: set<nat>, flow: Flow, entry: nat, d: nat, v: nat) {
    exists p :: PathTo(nodes, flow, entry, p, v) && d !in p
  }

  /** Each set holds exactly the nodes on every path from a source. */
  ghost predicate AreDominators(nodes: set<nat>, flow: Flow, entry: nat, dom: map<nat, set<nat>>) {
    && dom.Keys == nodes
    && forall v, d :: v in nodes ==> (d in dom[v] <==> d in nodes && OnAllPaths(nodes, flow, entry, d, v))
  }

  ghost predicate WithinNodes(nodes: set<nat>, flow: Flow) {
    forall e :: e in flow ==> e.0 in nodes && e.1 in nodes
  }

  /** The next value of v's set: v itself, and what dominates all its predecessors. */
  function Updated(nodes: set<nat>, flow: Flow, dom: map<nat, set<nat>>, v: nat): set<nat> {
    {v} + if HasPredecessor(flow, v)
          then set d | d in nodes && forall e :: e in flow && e.1 == v && e.0 in dom ==> d in dom[e.0]
          else {}
  }

  // ----- The invariant -----

  ghost predicate IsOver(nodes: set<nat>, dom: map<nat, set<nat>>) {
    dom.Keys == nodes && forall v :: v in nodes ==> dom[v] <= nodes
  }

  /** Whatever was removed from a set can be avoided on some path. */
  ghost predicate RemovedIsAvoidable(nodes: set<nat>, flow: Flow, entry: nat, dom: map<nat, set<nat>>) {
    forall v, d :: v in dom && d in nodes && d !in dom[v] ==> Avoidable(nodes, flow, entry, d, v)
  }

  /** Updating can only remove nodes. */
  ghost predicate OnlyShrinks(nodes: set<nat>, flow: Flow, entry: nat, dom: map<nat, set<nat>>) {
    forall v :: v in dom && v != entry ==> Updated(nodes, flow, dom, v) <= dom[v]
  }

  ghost predicate EntryIsFixed(entry: nat, dom: map<nat, set<nat>>) {
    entry in dom ==> dom[entry] == {entry}
  }

  ghost predicate DomInv(nodes: set<nat>, flow: Flow, entry: nat, dom: map<nat, set<nat>>) {
    && IsOver(nodes, dom) && RemovedIsAvoidable(nodes, flow, entry, dom)
    && OnlyShrinks(nodes, flow, entry, dom) && EntryIsFixed(entry, dom)
  }

  lemma ExtendAvoiding(nodes: set<nat>, flow: Flow, entry: nat, d: nat, u: nat, v: nat)
    requires Avoidable(nodes, flow, entry, d, u) && (u, v) in flow && d != v
    ensures Avoidable(nodes, flow, entry, d, v)
  {
    var p :| PathTo(nodes, flow, entry, p, u) && d !in p;
    var q := p + [v];
    forall i | 0 <= i < |q| - 1 ensures (q[i], q[i + 1]) in flow {
      if i < |p| - 1 { assert (p[i], p[i + 1]) in flow; }
    }
    assert PathTo(nodes, flow, entry, q, v) && d !in q;
  }

  lemma UpdateIsAvoidable(nodes: set<nat>, flow: Flow, entry: nat, dom: map<nat, set<nat>>, v: nat, d: nat)
    requires WithinNodes(nodes, flow) && IsOver(nodes, dom) && RemovedIsAvoidable(nodes, flow, entry, dom)
    requires v in nodes && d in nodes && d !in Updated(nodes, flow, dom, v)
    ensures Avoidable(nodes, flow, entry, d, v)
  {
    if HasPredecessor(flow, v) {
      var e :| e in flow && e.1 == v && e.0 in dom && d !in dom[e.0];
      ExtendAvoiding(nodes, flow, entry, d, e.0, v);
    } else {
      assert PathTo(nodes, flow, entry, [v], v) && d !in [v];
    }
  }

  lemma UpdateIsMonotone(nodes: set<nat>, flow: Flow, dom: map<nat, set<nat>>, dom': map<nat, set<nat>>, v: nat)
    requires dom'.Keys == dom.Keys && forall u :: u in dom ==> dom'[u] <= dom[u]
    ensures Updated(nodes, flow, dom', v) <= Updated(nodes, flow, dom, v)
  {
    forall d | d in Updated(nodes, flow, dom', v) ensures d in Updated(nodes, flow, dom, v) {
    }
  }

  lemma UpdateKeepsInv(nodes: set<nat>, flow: Flow, entry: nat, dom: map<nat, set<nat>>, v: nat)
    requires WithinNodes(nodes, flow) && DomInv(nodes, flow, entry, dom) && v in nodes && v != entry
    ensures DomInv(nodes, flow, entry, dom[v := Updated(nodes, flow, dom, v)])
  {
    var dom' := dom[v := Updated(nodes, flow, dom, v)];
    assert dom'.Keys == dom.Keys;
    forall u, d | u in dom' && d in nodes && d !in dom'[u] ensures Avoidable(nodes, flow, entry, d, u) {
      if u == v { UpdateIsAvoidable(nodes, flow, entry, dom, v, d); }
    }
    forall u | u in dom' && u != entry ensures Updated(nodes, flow, dom', u) <= dom'[u] {
      UpdateIsMonotone(nodes, flow, dom, dom', u);
    }
  }

  // ----- The fixpoint is exact -----

  ghost predicate IsFixed(nodes: set<nat>, flow: Flow, entry: nat, dom: map<nat, set<nat>>, done: set<nat>) {
    forall v :: v in done && v in dom && v != entry ==> dom[v] == Updated(nodes, flow, dom, v)
  }

  lemma {:induction false} FixedIsSafe(nodes: set<nat>, flow: Flow, entry: nat, dom: map<nat, set<nat>>, p: seq<nat>,
                                       d: nat)
    requires WithinNodes(nodes, flow) && IsOver(nodes, dom) && EntryIsFixed(entry, dom)
      && IsFixed(nodes, flow, entry, dom, nodes)
    requires IsFlowPath(nodes, flow, entry, p)
    ensures p[|p| - 1] in nodes && (d in dom[p[|p| - 1]] ==> d in p)
  {
    var v := p[|p| - 1];
    if |p| > 1 {
      var q := p[..|p| - 1];
      var u := p[|p| - 2];
      assert (p[|p| - 2], p[|p| - 1]) in flow;
      forall i | 0 <= i < |q| - 1 ensures (q[i], q[i + 1]) in flow { assert (p[i], p[i + 1]) in flow; }
      FixedIsSafe(nodes, flow, entry, dom, q, d);
      if d in dom[v] && d != v && v != entry {
        assert (u, v) in flow && (u, v).1 == v && d in dom[u];
      }
    }
  }

  lemma FixedIsExact(nodes: set<nat>, flow: Flow, entry: nat, dom: map<nat, set<nat>>)
    requires WithinNodes(nodes, flow) && DomInv(nodes, flow, entry, dom) && IsFixed(nodes, flow, entry, dom, nodes)
    ensures AreDominators(nodes, flow, entry, dom)
  {
    forall v, d | v in nodes ensures d in dom[v] <==> d in nodes && OnAllPaths(nodes, flow, entry, d, v) {
      if d in dom[v] {
        forall p | PathTo(nodes, flow, entry, p, v) ensures d in p {
          FixedIsSafe(nodes, flow, entry, dom, p, d);
        }
      } else if d in nodes {
        assert Avoidable(nodes, flow, entry, d, v);
      }
    }
  }

  // ----- The iteration -----

  ghost function Entries(dom: map<nat, set<nat>>): set<(nat, nat)> {
    set v, d | v in dom && d in dom[v] :: (v, d)
  }

  lemma UpdateRemoves(nodes: set<nat>, flow: Flow, entry: nat, dom: map<nat, set<nat>>, v: nat)
    requires v in dom && v != entry && OnlyShrinks(nodes, flow, entry, dom) && Updated(nodes, flow, dom, v) != dom[v]
    ensures Entries(dom[v := Updated(nodes, flow, dom, v)]) < Entries(dom)
  {
    var d :| d in dom[v] && d !in Updated(nodes, flow, dom, v);
    assert (v, d) in Entries(dom) && (v, d) !in Entries(dom[v := Updated(nodes, flow, dom, v)]);
  }

  lemma StartInv(nodes: set<nat>, flow: Flow, entry: nat, dom: map<nat, set<nat>>)
    requires dom == map v | v in nodes :: if v == entry then {v} else nodes
    ensures DomInv(nodes, flow, entry, dom)
  {
    forall v, d | v in dom && d in nodes && d !in dom[v] ensures Avoidable(nodes, flow, entry, d, v) {
      assert PathTo(nodes, flow, entry, [v], v) && d !in [v];
    }
  }

  /** One pass over all nodes but the entry. */
  method Pass(nodes: set<nat>, flow: Flow, entry: nat, dom0: map<nat, set<nat>>)
    returns (dom: map<nat, set<nat>>, changed: bool)
    requires WithinNodes(nodes, flow) && DomInv(nodes, flow, entry, dom0)
    ensures DomInv(nodes, flow, entry, dom)
    ensures changed ==> Entries(dom) < Entries(dom0)
    ensures !changed ==> dom == dom0 && IsFixed(nodes, flow, entry, dom, nodes)
  {
    dom, changed := dom0, false;
    var left := nodes - {entry};
    while left != {}
      invariant left <= nodes - {entry} && DomInv(nodes, flow, entry, dom)
      invariant changed ==> Entries(dom) < Entries(dom0)
      invariant !changed ==> dom == dom0 && IsFixed(nodes, flow, entry, dom, nodes - left)
    {
      var v :| v in left;
      left := left - {v};
      var updated := Updated(nodes, flow, dom, v);
      if updated != dom[v] {
        UpdateKeepsInv(nodes, flow, entry, dom, v);
        UpdateRemoves(nodes, flow, entry, dom, v);
        dom := dom[v := updated];
        changed := true;
      }
    }
  }

  /** The sets that the iteration ends with are the dominators. */
  method ComputeDominators(nodes: set<nat>, flow: Flow, entry: nat) returns (dom: map<nat, set<nat>>)
    requires WithinNodes(nodes, flow)
    ensures AreDominators(nodes, flow, entry, dom)
  {
    dom := map v | v in nodes :: if v == entry then {v} else nodes;
    StartInv(nodes, flow, entry, dom);
    var changed := true;
    while changed
      invariant DomInv(nodes, flow, entry, dom)
      invariant !changed ==> IsFixed(nodes, flow, entry, dom, nodes)
      decreases Entries(dom), changed
    {
      dom, changed := Pass(nodes, flow, entry, dom);
    }
    FixedIsExact(nodes, flow, entry, dom);
  }

  // ----- Does the join of all workers cover an instruction? -----

  datatype Block = Block(pc: nat, size: nat, successors: seq<nat>)

  datatype Function = Function(pc: nat, blocks: set<nat>)

  predicate Contains(b: Block, pc: nat) {
    b.pc <= pc < b.pc + b.size
  }

  /** The smallest block that contains the address; the first one among equals. */
  function SmallestBlock(blocks: seq<Block>, pc: nat): (best: Option<Block>)
    ensures best.None? <==> forall b :: b in blocks ==> !Contains(b, pc)
    ensures best.Some? ==> best.value in blocks && Contains(best.value, pc)
    ensures best.Some? ==> forall b :: b in blocks && Contains(b, pc) ==> best.value.size <= b.size
  {
    if blocks == [] then None else
      var last := blocks[|blocks| - 1];
      var before := SmallestBlock(blocks[..|blocks| - 1], pc);
      assert blocks == blocks[..|blocks| - 1] + [last];
      if Contains(last, pc) && (before.None? || last.size < before.value.size) then Some(last) else before
  }

  function FirstFunction(functions: seq<Function>, a: nat, b: nat): (f: Option<Function>)
    ensures f.None? <==> forall g :: g in functions ==> !(a in g.blocks && b in g.blocks)
    ensures f.Some? ==> f.value in functions && a in f.value.blocks && b in f.value.blocks
  {
    if functions == [] then None
    else if a in functions[0].blocks && b in functions[0].blocks then Some(functions[0])
    else FirstFunction(functions[1..], a, b)
  }

  /** The control flow inside one function. */
  function FlowOf(blocks: seq<Block>, f: Function): Flow {
    set b, t | b in blocks && t in b.successors && b.pc in f.blocks && t in f.blocks :: (b.pc, t)
  }

  /** The join block is on every path to the event's block, and leads to it. */
  ghost predicate JoinCovers(blocks: seq<Block>, f: Function, join: nat, event: nat) {
    && OnAllPaths(f.blocks, FlowOf(blocks, f), f.pc, join, event)
    && Leads(FlowOf(blocks, f), join, event)
  }

  ghost predicate CoversPc(blocks: seq<Block>, functions: seq<Function>, postJoinPc: nat, pc: nat) {
    var join, event := SmallestBlock(blocks, postJoinPc), SmallestBlock(blocks, pc);
    && join.Some? && event.Some?
    && if join.value.pc == event.value.pc then pc >= postJoinPc
       else FirstFunction(functions, join.value.pc, event.value.pc).Some?
            && JoinCovers(blocks, FirstFunction(functions, join.value.pc, event.value.pc).value, join.value.pc,
              event.value.pc)
  }

  /** Across blocks, every path from the function's entry to the event passes the join. */
  ghost predicate JoinIsPassed(blocks: seq<Block>, functions: seq<Function>, postJoinPc: nat, pc: nat) {
    forall join, event, f, p ::
      && SmallestBlock(blocks, postJoinPc) == Some(join) && SmallestBlock(blocks, pc) == Some(event)
        && join.pc != event.pc
      && FirstFunction(functions, join.pc, event.pc) == Some(f) && f.pc in f.blocks
      && IsWalk(FlowOf(blocks, f), p) && p[0] == f.pc && p[|p| - 1] == event.pc
      ==> join.pc in p
  }

  lemma CoveredPathsPassTheJoin(blocks: seq<Block>, functions: seq<Function>, postJoinPc: nat, pc: nat)
    requires CoversPc(blocks, functions, postJoinPc, pc)
    ensures JoinIsPassed(blocks, functions, postJoinPc, pc)
  {
    forall join, event, f, p
      | && SmallestBlock(blocks, postJoinPc) == Some(join) && SmallestBlock(blocks, pc) == Some(event)
        && join.pc != event.pc
        && FirstFunction(functions, join.pc, event.pc) == Some(f) && f.pc in f.blocks
        && IsWalk(FlowOf(blocks, f), p) && p[0] == f.pc && p[|p| - 1] == event.pc
      ensures join.pc in p {
      assert PathTo(f.blocks, FlowOf(blocks, f), f.pc, p, event.pc);
    }
  }

  /** Exactly: in one block by address; otherwise by dominance and reachability inside one function. */
  method PostJoinCoversPc(proven: bool, blocks: seq<Block>, functions: seq<Function>, postJoinPc: nat, pc: nat)
    returns (covers: bool)
    ensures covers <==> proven && CoversPc(blocks, functions, postJoinPc, pc)
    ensures covers ==> JoinIsPassed(blocks, functions, postJoinPc, pc)
  {
    if CoversPc(blocks, functions, postJoinPc, pc) { CoveredPathsPassTheJoin(blocks, functions, postJoinPc, pc); }
    if !proven {
      return false;
    }
    var join, event := SmallestBlock(blocks, postJoinPc), SmallestBlock(blocks, pc);
    if join.None? || event.None? {
      return false;
    }
    if join.value.pc == event.value.pc {
      return pc >= postJoinPc;
    }
    var f := FirstFunction(functions, join.value.pc, event.value.pc);
    if f.None? {
      return false;
    }
    var flow := FlowOf(blocks, f.value);
    var dom := ComputeDominators(f.value.blocks, flow, f.value.pc);
    if join.value.pc !in dom[event.value.pc] {
      return false;
    }
    covers := PathExists(flow, join.value.pc, event.value.pc);
  }
}

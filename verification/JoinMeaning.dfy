/** When the join of all workers covers an instruction, in terms of blocks, addresses and runs through a function. */
module JoinMeaning {
  import opened Events
  import opened Graphs
  import opened Reachability
  import opened Dominators

  /** Block i is the one an address belongs to: the smallest that holds it, the first among equals. */
  ghost predicate IsBlockOf(blocks: seq<Block>, pc: nat, i: nat) {
    && i < |blocks| && blocks[i].pc <= pc < blocks[i].pc + blocks[i].size
    && forall j :: 0 <= j < |blocks| && blocks[j].pc <= pc < blocks[j].pc + blocks[j].size ==>
         blocks[i].size < blocks[j].size || (blocks[i].size == blocks[j].size && i <= j)
  }

  /** Function k is the first that holds both blocks. */
  ghost predicate IsFunctionOf(functions: seq<Function>, a: nat, b: nat, k: nat) {
    && k < |functions| && a in functions[k].blocks && b in functions[k].blocks
    && forall m :: 0 <= m < k ==> !(a in functions[m].blocks && b in functions[m].blocks)
  }

  /** Inside the function control can pass from one block to the other. */
  ghost predicate CanPass(blocks: seq<Block>, f: Function, a: nat, b: nat) {
    a in f.blocks && b in f.blocks && exists x :: x in blocks && x.pc == a && b in x.successors
  }

  ghost predicate IsRun(blocks: seq<Block>, f: Function, p: seq<nat>) {
    p != [] && forall i :: 0 <= i < |p| - 1 ==> CanPass(blocks, f, p[i], p[i + 1])
  }

  /** Runs begin at the entry, or where nothing of the function leads. */
  ghost predicate CanBegin(blocks: seq<Block>, f: Function, v: nat) {
    v in f.blocks && (v == f.pc || forall a :: !CanPass(blocks, f, a, v))
  }

  ghost predicate IsCovered(blocks: seq<Block>, functions: seq<Function>, postJoinPc: nat, pc: nat) {
    exists i: nat, j: nat :: IsBlockOf(blocks, postJoinPc, i) && IsBlockOf(blocks, pc, j)
                             && IsCoveredFrom(blocks, functions, blocks[i].pc, blocks[j].pc, postJoinPc, pc)
  }

  /** In one block the address decides. Otherwise every run to the event's block passes the join's, and there is a run
      from there. */
  ghost predicate IsCoveredFrom(blocks: seq<Block>, functions: seq<Function>, join: nat, event: nat, postJoinPc: nat,
                                pc: nat) {
    if join == event then postJoinPc <= pc
    else exists k: nat :: IsFunctionOf(functions, join, event, k) && IsPassed(blocks, functions[k], join, event)
  }

  ghost predicate IsPassed(blocks: seq<Block>, f: Function, join: nat, event: nat) {
    && (forall p :: IsRun(blocks, f, p) && CanBegin(blocks, f, p[0]) && p[|p| - 1] == event ==> join in p)
    && exists p :: IsRun(blocks, f, p) && p[0] == join && p[|p| - 1] == event
  }

  lemma {:induction false} SmallestIsFirst(blocks: seq<Block>, pc: nat) returns (i: nat)
    requires SmallestBlock(blocks, pc).Some?
    ensures IsBlockOf(blocks, pc, i) && blocks[i] == SmallestBlock(blocks, pc).value
  {
    var n := |blocks| - 1;
    var before := SmallestBlock(blocks[..n], pc);
    assert blocks == blocks[..n] + [blocks[n]];
    if Contains(blocks[n], pc) && (before.None? || blocks[n].size < before.value.size) {
      i := n;
    } else {
      i := SmallestIsFirst(blocks[..n], pc);
    }
  }

  lemma OneBlock(blocks: seq<Block>, pc: nat, i: nat, j: nat)
    requires IsBlockOf(blocks, pc, i) && IsBlockOf(blocks, pc, j)
    ensures i == j
  {
  }

  lemma BlockAgrees(blocks: seq<Block>, pc: nat, i: nat)
    ensures IsBlockOf(blocks, pc, i) ==> SmallestBlock(blocks, pc) == Some(blocks[i])
  {
    if IsBlockOf(blocks, pc, i) {
      assert blocks[i] in blocks && Contains(blocks[i], pc);
      var j := SmallestIsFirst(blocks, pc);
      OneBlock(blocks, pc, i, j);
    }
  }

  lemma {:induction false} FirstIsFunction(functions: seq<Function>, a: nat, b: nat) returns (k: nat)
    requires FirstFunction(functions, a, b).Some?
    ensures IsFunctionOf(functions, a, b, k) && functions[k] == FirstFunction(functions, a, b).value
  {
    if a in functions[0].blocks && b in functions[0].blocks {
      k := 0;
    } else {
      k := FirstIsFunction(functions[1..], a, b);
      k := k + 1;
    }
  }

  lemma FunctionAgrees(functions: seq<Function>, a: nat, b: nat, k: nat)
    requires IsFunctionOf(functions, a, b, k)
    ensures FirstFunction(functions, a, b) == Some(functions[k])
  {
    assert functions[k] in functions;
    var m := FirstIsFunction(functions, a, b);
    assert m == k;
  }

  lemma PassIsFlow(blocks: seq<Block>, f: Function, a: nat, b: nat)
    ensures (a, b) in FlowOf(blocks, f) <==> CanPass(blocks, f, a, b)
  {
  }

  lemma RunIsWalk(blocks: seq<Block>, f: Function, p: seq<nat>)
    ensures IsWalk(FlowOf(blocks, f), p) <==> IsRun(blocks, f, p)
  {
    forall a: nat, b: nat ensures (a, b) in FlowOf(blocks, f) <==> CanPass(blocks, f, a, b) {
      PassIsFlow(blocks, f, a, b);
    }
    if IsWalk(FlowOf(blocks, f), p) {
      forall i | 0 <= i < |p| - 1 ensures CanPass(blocks, f, p[i], p[i + 1]) {
        assert (p[i], p[i + 1]) in FlowOf(blocks, f);
      }
    }
  }

  lemma BeginIsSource(blocks: seq<Block>, f: Function, v: nat)
    ensures IsSource(f.blocks, FlowOf(blocks, f), f.pc, v) <==> CanBegin(blocks, f, v)
  {
    var flow := FlowOf(blocks, f);
    if e :| e in flow && e.1 == v { PassIsFlow(blocks, f, e.0, v); }
    if a: nat :| CanPass(blocks, f, a, v) {
      PassIsFlow(blocks, f, a, v);
      assert (a, v).1 == v;
    }
  }

  lemma PassedIsJoin(blocks: seq<Block>, f: Function, join: nat, event: nat)
    ensures JoinCovers(blocks, f, join, event) <==> IsPassed(blocks, f, join, event)
  {
    var flow := FlowOf(blocks, f);
    forall p: seq<nat> ensures IsWalk(flow, p) <==> IsRun(blocks, f, p) { RunIsWalk(blocks, f, p); }
    forall v: nat ensures IsSource(f.blocks, flow, f.pc, v) <==> CanBegin(blocks, f, v) { BeginIsSource(blocks, f, v); }
    forall p: seq<nat> ensures PathTo(f.blocks, flow, f.pc, p, event)
      <==> IsRun(blocks, f, p) && CanBegin(blocks, f, p[0]) && p[|p| - 1] == event {
    }
    if Leads(flow, join, event) {
      if join == event {
        assert IsRun(blocks, f, [join]);
      } else {
        var p :| WalkFromTo(flow, p, join, event);
        assert IsRun(blocks, f, p);
      }
    }
    if p :| IsRun(blocks, f, p) && p[0] == join && p[|p| - 1] == event {
      if |p| > 1 { assert WalkFromTo(flow, p, join, event); }
    }
  }

  /** The answer about an instruction is yes exactly if the join covers it in this sense. */
  lemma CoveredByRuns(blocks: seq<Block>, functions: seq<Function>, postJoinPc: nat, pc: nat)
    ensures CoversPc(blocks, functions, postJoinPc, pc) <==> IsCovered(blocks, functions, postJoinPc, pc)
  {
    var join, event := SmallestBlock(blocks, postJoinPc), SmallestBlock(blocks, pc);
    if CoversPc(blocks, functions, postJoinPc, pc) {
      var i := SmallestIsFirst(blocks, postJoinPc);
      var j := SmallestIsFirst(blocks, pc);
      if blocks[i].pc != blocks[j].pc {
        var k := FirstIsFunction(functions, blocks[i].pc, blocks[j].pc);
        PassedIsJoin(blocks, functions[k], blocks[i].pc, blocks[j].pc);
      }
      assert IsCoveredFrom(blocks, functions, blocks[i].pc, blocks[j].pc, postJoinPc, pc);
    }
    if IsCovered(blocks, functions, postJoinPc, pc) {
      var i: nat, j: nat :| IsBlockOf(blocks, postJoinPc, i) && IsBlockOf(blocks, pc, j)
        && IsCoveredFrom(blocks, functions, blocks[i].pc, blocks[j].pc, postJoinPc, pc);
      BlockAgrees(blocks, postJoinPc, i);
      BlockAgrees(blocks, pc, j);
      if blocks[i].pc != blocks[j].pc {
        var k: nat :| IsFunctionOf(functions, blocks[i].pc, blocks[j].pc, k)
          && IsPassed(blocks, functions[k], blocks[i].pc, blocks[j].pc);
        FunctionAgrees(functions, blocks[i].pc, blocks[j].pc, k);
        PassedIsJoin(blocks, functions[k], blocks[i].pc, blocks[j].pc);
      }
    }
  }
}

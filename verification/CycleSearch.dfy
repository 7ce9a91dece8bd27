/** Depth-first search for one directed cycle. */
module CycleSearch {
  import opened Graphs

  class CycleFinder<V(==,!new)> {
    const edges: set<(V, V)>
    const nodes: set<V>
    var graph: map<V, seq<V>>
    var visiting: set<V>
    var visited: set<V>
    var stack: seq<V>
    // Finishing times; they fall along every edge between finished nodes.
    ghost var finish: map<V, int>
    ghost var clock: int

    ghost predicate Indexed()
      reads this
    {
      && (forall e :: e in edges ==> e.0 in nodes && e.1 in nodes)
      && (forall v, w :: (v, w) in edges ==> v in graph && w in graph[v])
      && (forall v, w :: v in graph && w in graph[v] ==> (v, w) in edges)
    }

    ghost predicate Finished()
      reads this
    {
      && visited <= finish.Keys
      && (forall v :: v in visited ==> finish[v] < clock)
      && (forall v, w :: (v, w) in edges && v in visited ==> w in visited && finish[w] < finish[v])
    }

    ghost predicate Valid()
      reads this
    {
      && Indexed() && Finished()
      && visiting !! visited && visiting + visited <= nodes
      && (forall v :: v in stack <==> v in visiting)
      && (forall i, j :: 0 <= i < j < |stack| ==> stack[i] != stack[j])
      && (stack != [] ==> IsWalk(edges, stack))
    }

    constructor (edges: set<(V, V)>)
      ensures this.edges == edges && visiting == {} && visited == {} && stack == []
      ensures nodes == (set e | e in edges :: e.0) + (set e | e in edges :: e.1)
      ensures Valid()
    {
      this.edges := edges;
      nodes := (set e | e in edges :: e.0) + (set e | e in edges :: e.1);
      visiting, visited, stack := {}, {}, [];
      finish, clock := map[], 0;
      graph := map[];
      new;
      var rest := edges;
      while rest != {}
        invariant rest <= edges
        invariant visiting == {} && visited == {} && stack == []
        invariant forall v, w :: (v, w) in edges - rest <==> v in graph && w in graph[v]
        decreases rest
      {
        var e :| e in rest;
        var targets := if e.0 in graph then graph[e.0] else [];
        graph := graph[e.0 := targets + [e.1]];
        rest := rest - {e};
      }
    }

    method Enter(node: V)
      requires Valid() && node in nodes && node !in visiting && node !in visited
      requires stack != [] ==> (stack[|stack| - 1], node) in edges
      modifies `visiting, `stack
      ensures Valid() && stack == old(stack) + [node] && visiting == old(visiting) + {node}
    {
      visiting := visiting + {node};
      stack := stack + [node];
    }

    method Leave(node: V)
      requires Valid() && stack != [] && stack[|stack| - 1] == node
      requires forall w :: (node, w) in edges ==> w in visited
      modifies `visiting, `stack, `visited, `finish, `clock
      ensures Valid() && stack == old(stack)[..|old(stack)| - 1] && visiting == old(visiting) - {node}
      ensures visited == old(visited) + {node}
    {
      assert node !in visited;
      stack := stack[..|stack| - 1];
      visiting := visiting - {node};
      visited := visited + {node};
      finish := finish[node := clock];
      clock := clock + 1;
    }

    method Visit(node: V) returns (cycle: seq<V>)
      requires Valid() && node in nodes
      requires stack != [] ==> (stack[|stack| - 1], node) in edges
      modifies `visiting, `stack, `visited, `finish, `clock
      ensures cycle != [] ==> IsCycle(edges, cycle)
      ensures cycle == [] ==>
                && Valid() && stack == old(stack) && visiting == old(visiting)
                && old(visited) <= visited && node in visited
      decreases nodes - visiting - visited
    {
      if node in visiting {
        var start :| 0 <= start < |stack| && stack[start] == node;
        return stack[start..] + [node];
      }
      if node in visited {
        return [];
      }
      ghost var open := nodes - visiting - visited;
      Enter(node);
      var targets := if node in graph then graph[node] else [];
      for i := 0 to |targets|
        invariant Valid()
        invariant stack == old(stack) + [node] && visiting == old(visiting) + {node}
        invariant old(visited) <= visited
        invariant forall j :: 0 <= j < i ==> targets[j] in visited
      {
        assert (node, targets[i]) in edges;
        assert nodes - visiting - visited < open by { assert node in open; }
        var found := Visit(targets[i]);
        if found != [] {
          return found;
        }
      }
      assert forall w :: (node, w) in edges ==> w in targets;
      Leave(node);
      return [];
    }
  }

  /** Returns the empty sequence exactly on acyclic graphs, and a closed walk of the graph otherwise. */
  method FindCycle<V(==,!new)>(edges: set<(V, V)>) returns (cycle: seq<V>)
    ensures cycle == [] <==> Acyclic(edges)
    ensures cycle != [] ==> IsCycle(edges, cycle)
  {
    var finder := new CycleFinder(edges);
    var rest := finder.nodes;
    while rest != {}
      invariant finder.Valid() && finder.stack == [] && finder.edges == edges
      invariant rest <= finder.nodes && finder.nodes - rest <= finder.visited
      decreases rest
    {
      var node :| node in rest;
      cycle := finder.Visit(node);
      if cycle != [] {
        return;
      }
      rest := rest - {node};
    }
    FinishedGraphIsAcyclic(edges, finder.visited, finder.finish);
    cycle := [];
  }

  lemma FinishedGraphIsAcyclic<V(!new)>(edges: set<(V, V)>, visited: set<V>, finish: map<V, int>)
    requires visited <= finish.Keys
    requires forall v, w :: (v, w) in edges ==> v in visited && w in visited && finish[w] < finish[v]
    ensures Acyclic(edges)
  {
    RisingRanksForbidCycles(edges, v => if v in finish then -finish[v] else 0);
  }
}

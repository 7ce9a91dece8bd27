/** The iterative low-link search that splits the communication graph into its blocks. */
module Biconnected {
  import opened Events
  import opened Blocks
  import opened BlockSearch

  // ----- What the result means -----

  ghost predicate Together<V>(components: seq<set<V>>, i: int, u: V, v: V) {
    0 <= i < |components| && u in components[i] && v in components[i]
  }

  ghost predicate HasNoCutNode<V(!new)>(g: Graph<V>, s: set<V>) {
    forall z, x, y :: x in s - {z} && y in s - {z} ==> Linked(g, s - {z}, x, y)
  }

  ghost predicate EdgesAreCovered<V(!new)>(g: Graph<V>, components: seq<set<V>>) {
    forall u, v :: u in g && v in g[u] ==> exists i :: Together(components, i, u, v)
  }

  ghost predicate ShareOneNode<V(!new)>(components: seq<set<V>>) {
    forall i, j, x, y :: Together(components, i, x, y) && Together(components, j, x, y) && i != j ==> x == y
  }

  ghost predicate AllTogether<V(!new)>(components: seq<set<V>>, i: int, c: seq<V>) {
    0 <= i < |components| && forall v :: v in c ==> v in components[i]
  }

  ghost predicate LoopsAreInside<V(!new)>(g: Graph<V>, components: seq<set<V>>) {
    forall c: seq<V> :: IsLoop(g, c) ==> exists i :: AllTogether(components, i, c)
  }

  ghost predicate HoldsEdge<V(!new)>(g: Graph<V>, s: set<V>) {
    exists u, v :: u in s && v in s && u in g && v in g[u]
  }

  ghost predicate IsWhole<V(!new)>(g: Graph<V>, components: seq<set<V>>, i: int)
    requires 0 <= i < |components|
  {
    components[i] <= g.Keys && HoldsEdge(g, components[i]) && HasNoCutNode(g, components[i])
  }

  /** The components are the blocks of g. */
  ghost predicate AreBlocks<V(!new)>(g: Graph<V>, components: seq<set<V>>) {
    && EdgesAreCovered(g, components) && ShareOneNode(components) && LoopsAreInside(g, components)
    && forall i {:trigger IsWhole(g, components, i)} :: 0 <= i < |components| ==> IsWhole(g, components, i)
  }

  /** Hence both ends of an edge are together in exactly one component. */
  lemma EdgeHasOneBlock<V(!new)>(g: Graph<V>, components: seq<set<V>>, u: V, v: V) returns (i: int)
    requires Undirected(g) && AreBlocks(g, components) && u in g && v in g[u]
    ensures Together(components, i, u, v) && forall j :: Together(components, j, u, v) ==> j == i
  {
    i :| Together(components, i, u, v);
    forall j | Together(components, j, u, v) ensures j == i {
    }
  }

  // ----- The invariant of the whole search -----

  ghost predicate TreeInv<V(!new)>(g: Graph<V>, f: Forest<V>, stack: seq<V>, clock: int) {
    IsForest(g, f) && StackIsBranch(f, stack) && RecentIsBelow(f, stack, clock)
  }

  ghost predicate RestInv<V(!new)>(g: Graph<V>, f: Forest<V>, stack: seq<V>, rest: map<V, seq<V>>) {
    RestIsPending(g, f, stack, rest) && YieldedAreComparable(g, f, rest)
  }

  ghost predicate LowInv<V(!new)>(g: Graph<V>, f: Forest<V>, stack: seq<V>, rest: map<V, seq<V>>) {
    SameKeys(f) && LowIsSmall(f) && LowBoundsLinks(g, f, rest) && LowFallsOffStack(f, stack) && LowIsReached(g, f)
  }

  ghost predicate HeadInv<V(!new)>(f: Forest<V>, stack: seq<V>, heads: seq<V>, components: seq<set<V>>) {
    HeadsAreListed(f, stack, heads) && ComponentsAreBlocks(f, heads, components)
  }

  ghost predicate EdgeInv<V(!new)>(f: Forest<V>, stack: seq<V>, heads: seq<V>, edges: seq<(V, V)>, marks: seq<int>) {
    EdgesAreOpen(f, heads, edges) && MarksAreRight(f, stack, edges, marks)
  }

  // ----- Discovery keeps the invariant -----

  lemma DiscoverTree<V(!new)>(g: Graph<V>, f: Forest<V>, stack: seq<V>, clock: int, x: V)
    requires TreeInv(g, f, stack, clock) && x in g && x !in f.above && (stack != [] ==> x in g[Last(stack)])
    ensures MayGrow(f, stack, x, clock + 1)
    ensures TreeInv(g, AddNode(f, stack, x, clock + 1), stack + [x], clock + 1)
  {
    TopMayGrow(g, f, stack, clock, x);
    DiscoverForest(g, f, stack, x, clock + 1);
    DiscoverStack(f, stack, x, clock + 1);
    DiscoverRecent(f, stack, x, clock);
  }

  lemma DiscoverRest<V(!new)>(g: Graph<V>, f: Forest<V>, stack: seq<V>, rest: map<V, seq<V>>, x: V, time: int,
                              neighbours: seq<V>)
    requires MayGrow(f, stack, x, time) && StackIsBranch(f, stack) && RestInv(g, f, stack, rest)
    requires x in g && forall w :: w in g[x] <==> w in neighbours
    ensures RestInv(g, AddNode(f, stack, x, time), stack + [x], rest[x := neighbours])
  {
    DiscoverComparable(g, f, stack, rest, x, time, neighbours);
    assert (stack + [x])[|stack|] == x;
  }

  lemma DiscoverLow<V(!new)>(g: Graph<V>, f: Forest<V>, stack: seq<V>, rest: map<V, seq<V>>, x: V, time: int,
                             neighbours: seq<V>)
    requires MayGrow(f, stack, x, time) && StackIsBranch(f, stack) && RestInv(g, f, stack, rest)
    requires LowInv(g, f, stack, rest) && x in g && forall w :: w in g[x] <==> w in neighbours
    ensures LowInv(g, AddNode(f, stack, x, time), stack + [x], rest[x := neighbours])
  {
    DiscoverLowIsSmall(f, stack, x, time);
    DiscoverLowBounds(g, f, stack, rest, x, time, neighbours);
    DiscoverLowFalls(f, stack, x, time);
    DiscoverLowIsReached(g, f, stack, x, time);
  }

  lemma HeadsAreOff<V(!new)>(f: Forest<V>, stack: seq<V>, heads: seq<V>)
    requires HeadsAreListed(f, stack, heads)
    ensures forall h :: h in heads ==> h in f.above && h in f.parent && h !in stack
  {
    forall h | h in heads ensures h in f.above && h in f.parent && h !in stack {
      assert IsHead(f, h);
    }
  }

  lemma DiscoverHeadInv<V(!new)>(f: Forest<V>, stack: seq<V>, heads: seq<V>, components: seq<set<V>>, x: V, time: int)
    requires MayGrow(f, stack, x, time) && StackIsBranch(f, stack) && HeadInv(f, stack, heads, components)
    ensures HeadInv(AddNode(f, stack, x, time), stack + [x], heads, components)
  {
    HeadsAreOff(f, stack, heads);
    DiscoverHeads(f, stack, heads, x, time);
    DiscoverComponents(f, stack, heads, components, x, time);
  }

  lemma DiscoverEdgeInv<V(!new)>(f: Forest<V>, stack: seq<V>, heads: seq<V>, edges: seq<(V, V)>, marks: seq<int>,
                                 x: V, time: int)
    requires MayGrow(f, stack, x, time) && StackIsBranch(f, stack) && HeadsAreListed(f, stack, heads)
    requires EdgeInv(f, stack, heads, edges, marks)
    ensures stack == [] ==> EdgeInv(AddNode(f, stack, x, time), [x], heads, edges, [|edges|])
    ensures stack != [] ==>
              EdgeInv(AddNode(f, stack, x, time), stack + [x], heads, edges + [(Last(stack), x)], marks + [|edges|])
  {
    HeadsAreOff(f, stack, heads);
    DiscoverEdges(f, stack, heads, edges, x, time);
    DiscoverMarks(f, stack, heads, edges, marks, x, time);
    assert edges + [] == edges;
  }

  // ----- Yielding a neighbour keeps the invariant -----

  lemma YieldInv<V(!new)>(g: Graph<V>, f: Forest<V>, stack: seq<V>, rest: map<V, seq<V>>, c: V)
    requires RestInv(g, f, stack, rest) && LowInv(g, f, stack, rest) && c in stack && c in rest && rest[c] != []
    requires rest[c][0] in f.above && (Above(f, c, rest[c][0]) || Above(f, rest[c][0], c))
    requires f.depth[c] == 0 || rest[c][0] != f.parent[c] ==> f.low[c] <= f.disc[rest[c][0]]
    ensures RestInv(g, f, stack, rest[c := rest[c][1..]]) && LowInv(g, f, stack, rest[c := rest[c][1..]])
  {
    YieldPending(g, f, stack, rest, c);
    YieldComparable(g, f, rest, c);
    YieldLowBounds(g, f, rest, c);
  }

  /** Skipping the parent, or a neighbour that was discovered after the current node. */
  lemma SkipInv<V(!new)>(g: Graph<V>, f: Forest<V>, stack: seq<V>, clock: int, rest: map<V, seq<V>>)
    requires TreeInv(g, f, stack, clock) && RestInv(g, f, stack, rest) && LowInv(g, f, stack, rest)
    requires stack != [] && Last(stack) in rest && rest[Last(stack)] != []
    requires var w := rest[Last(stack)][0];
             || (f.depth[Last(stack)] != 0 && w == f.parent[Last(stack)])
             || (w in f.disc && f.disc[w] >= f.disc[Last(stack)])
    ensures var rest' := rest[Last(stack) := rest[Last(stack)][1..]];
            RestInv(g, f, stack, rest') && LowInv(g, f, stack, rest')
  {
    var top := Last(stack);
    if f.depth[top] != 0 && rest[top][0] == f.parent[top] {
      assert f.depth[top] > 0 by { assert Above(f, top, top); }
      assert Above(f, f.parent[top], top);
    }
    YieldInv(g, f, stack, rest, top);
  }

  // ----- Lowering a low link keeps the invariant -----

  lemma LowerTree<V(!new)>(g: Graph<V>, f: Forest<V>, stack: seq<V>, clock: int, y: V, value: int)
    requires TreeInv(g, f, stack, clock) && y in f.above
    ensures TreeInv(g, Lower(f, y, value), stack, clock)
  {
    LowerKeepsForest(g, f, y, value);
    assert forall a, x :: Above(Lower(f, y, value), a, x) <==> Above(f, a, x);
  }

  lemma LowerRest<V(!new)>(g: Graph<V>, f: Forest<V>, stack: seq<V>, rest: map<V, seq<V>>, y: V, value: int)
    requires RestInv(g, f, stack, rest)
    ensures RestInv(g, Lower(f, y, value), stack, rest)
  {
    assert forall a, x :: Above(Lower(f, y, value), a, x) <==> Above(f, a, x);
  }

  lemma LowerLow<V(!new)>(g: Graph<V>, f: Forest<V>, stack: seq<V>, rest: map<V, seq<V>>, y: V, value: int, u: V, w: V)
    requires LowInv(g, f, stack, rest) && y in stack && y in f.above && value <= f.low[y]
    requires value != f.low[y] ==> BackLink(g, Lower(f, y, value), y, u, w)
    ensures LowInv(g, Lower(f, y, value), stack, rest)
  {
    LowerBounds(g, f, stack, rest, y, value);
    LowerIsReached(g, f, y, value, u, w);
  }

  lemma StackedAncestors<V(!new)>(f: Forest<V>, stack: seq<V>, y: V)
    requires IsTreeShape(f) && StackIsBranch(f, stack) && y in stack
    ensures forall v :: Above(f, v, y) ==> v in stack
  {
    forall v | Above(f, v, y) ensures v in stack {
      assert Above(f, y, Last(stack));
    }
  }

  lemma LowerHeadInv<V(!new)>(f: Forest<V>, stack: seq<V>, heads: seq<V>, components: seq<set<V>>, y: V, value: int)
    requires IsTreeShape(f) && StackIsBranch(f, stack) && HeadInv(f, stack, heads, components) && y in stack
    ensures HeadInv(Lower(f, y, value), stack, heads, components)
  {
    HeadsAreOff(f, stack, heads);
    StackedAncestors(f, stack, y);
    LowerHeads(f, stack, heads, y, value);
    LowerComponents(f, heads, components, y, value);
  }

  lemma LowerEdgeInv<V(!new)>(f: Forest<V>, stack: seq<V>, heads: seq<V>, edges: seq<(V, V)>, marks: seq<int>, y: V,
                              value: int)
    requires EdgeInv(f, stack, heads, edges, marks) && y in f.low && value <= f.low[y]
    ensures EdgeInv(Lower(f, y, value), stack, heads, edges, marks)
  {
    LowerEdges(f, heads, edges, y, value);
    LowerMarks(f, stack, edges, marks, y, value);
  }

  ghost function Min(a: int, b: int): int {
    if a <= b then a else b
  }

  /** A back edge from the top of the stack reaches the number it lowers the link to. */
  lemma BackEdgeReaches<V(!new)>(g: Graph<V>, f: Forest<V>, top: V, w: V)
    requires top in g && w in g[top] && Above(f, top, top) && Above(f, w, top) && w in f.disc && top in f.low
    ensures BackLink(g, Lower(f, top, f.disc[w]), top, top, w)
  {
  }

  /** What a child reaches, its parent reaches. */
  lemma ParentReaches<V(!new)>(g: Graph<V>, f: Forest<V>, p: V, x: V) returns (u: V, w: V)
    requires IsTreeShape(f) && LowIsReached(g, f) && LowIsSmall(f)
    requires x in f.above && f.depth[x] > 0 && f.parent[x] == p && p in f.above && f.low[x] < f.low[p]
    ensures BackLink(g, Lower(f, p, f.low[x]), p, u, w)
  {
    assert Above(f, p, x);
    assert f.disc[p] < f.disc[x];
    u, w :| BackLink(g, f, x, u, w);
  }

  // ----- Leaving a node keeps the invariant -----

  lemma PopAll<V(!new)>(f: Forest<V>, stack: seq<V>)
    requires StackIsBranch(f, stack) && stack != []
    ensures forall v :: v in stack[..|stack| - 1] <==> v in stack && v != Last(stack)
  {
    forall v ensures v in stack[..|stack| - 1] <==> v in stack && v != Last(stack) {
      PopMembers(f, stack, v);
    }
  }

  lemma LeaveTree<V(!new)>(g: Graph<V>, f: Forest<V>, stack: seq<V>, clock: int)
    requires TreeInv(g, f, stack, clock) && stack != []
    ensures TreeInv(g, f, stack[..|stack| - 1], clock)
  {
    PopStack(f, stack);
    PopRecent(f, stack, clock);
  }

  lemma LeaveRest<V(!new)>(g: Graph<V>, f: Forest<V>, stack: seq<V>, rest: map<V, seq<V>>)
    requires RestInv(g, f, stack, rest) && StackIsBranch(f, stack) && stack != []
    requires Last(stack) in rest && rest[Last(stack)] == []
    ensures RestInv(g, f, stack[..|stack| - 1], rest)
  {
    PopAll(f, stack);
    PopPending(g, f, stack, rest);
  }

  lemma LeaveLow<V(!new)>(g: Graph<V>, f: Forest<V>, stack: seq<V>, rest: map<V, seq<V>>)
    requires LowInv(g, f, stack, rest) && StackIsBranch(f, stack) && stack != [] && Last(stack) in f.above
    requires f.depth[Last(stack)] != 0 && f.parent[Last(stack)] in f.above
      ==> f.low[f.parent[Last(stack)]] <= f.low[Last(stack)]
    ensures LowInv(g, f, stack[..|stack| - 1], rest)
  {
    PopAll(f, stack);
    PopLowFalls(f, stack);
  }

  /** Leaving a node that is no head: its edges stay on the edge stack. */
  lemma LeaveInv<V(!new)>(f: Forest<V>, stack: seq<V>, heads: seq<V>, components: seq<set<V>>, edges: seq<(V, V)>,
                          marks: seq<int>)
    requires StackIsBranch(f, stack) && stack != [] && !IsHead(f, Last(stack))
    requires HeadInv(f, stack, heads, components) && EdgeInv(f, stack, heads, edges, marks)
    ensures HeadInv(f, stack[..|stack| - 1], heads, components)
    ensures EdgeInv(f, stack[..|stack| - 1], heads, edges, marks[..|stack| - 1])
  {
    PopAll(f, stack);
    PopHeads(f, stack, heads);
    PopMarks(f, stack, edges, marks);
  }

  /** Leaving a head: its edges are popped, and their ends are its block. */
  lemma CloseInv<V(!new)>(f: Forest<V>, stack: seq<V>, heads: seq<V>, components: seq<set<V>>, edges: seq<(V, V)>,
                          marks: seq<int>)
    requires IsTreeShape(f) && StackIsBranch(f, stack) && |stack| > 1 && IsHead(f, Last(stack))
    requires HeadInv(f, stack, heads, components) && EdgeInv(f, stack, heads, edges, marks)
      && LowFallsOffStack(f, stack)
    ensures var n := |stack| - 1;
            && 0 <= marks[n] <= |edges|
            && HeadInv(f, stack[..n], heads + [stack[n]], components + [Ends(edges[marks[n]..])])
            && EdgeInv(f, stack[..n], heads + [stack[n]], edges[..marks[n]], marks[..n])
  {
    var n := |stack| - 1;
    assert MarkIsRight(f, edges, stack[n - 1], stack[n], marks[n]);
    CollectedIsBlock(f, stack, heads, edges, marks[n]);
    PopAll(f, stack);
    PopHeads(f, stack, heads);
    PopComponents(f, heads, components, stack[n]);
    CloseEdges(f, heads, edges, stack[n - 1], stack[n], marks[n]);
    CloseMarks(f, stack, edges, marks);
  }

  // ----- The finished search -----

  lemma FinishedEdges<V(!new)>(g: Graph<V>, f: Forest<V>, rest: map<V, seq<V>>)
    requires RestInv(g, f, [], rest) && f.above.Keys == g.Keys
    ensures EdgesAreVertical(g, f)
  {
    forall u, v | u in g && v in g[u] ensures Above(f, u, v) || Above(f, v, u) {
      assert Yielded(g, rest, u, v);
    }
  }

  lemma FinishedBounds<V(!new)>(g: Graph<V>, f: Forest<V>, rest: map<V, seq<V>>)
    requires RestIsPending(g, f, [], rest) && SameKeys(f) && LowBoundsLinks(g, f, rest) && f.above.Keys == g.Keys
    ensures LowBoundsEdges(g, f)
  {
    forall x, w | x in g && w in g[x] && w in f.disc && (IsRoot(f, x) || w != Parent(f, x))
      ensures f.low[x] <= f.disc[w] {
      assert Yielded(g, rest, x, w);
    }
  }

  lemma FinishedFalls<V(!new)>(f: Forest<V>)
    requires IsTreeShape(f) && LowFallsOffStack(f, [])
    ensures LowFalls(f)
  {
  }

  /** When every node is discovered and the stack is empty, the forest is a depth-first forest of g. */
  lemma FinishedForest<V(!new)>(g: Graph<V>, f: Forest<V>, clock: int, rest: map<V, seq<V>>)
    requires TreeInv(g, f, [], clock) && RestInv(g, f, [], rest) && LowInv(g, f, [], rest)
    requires f.above.Keys == g.Keys
    ensures IsDfsForest(g, f)
  {
    FinishedEdges(g, f, rest);
    FinishedBounds(g, f, rest);
    FinishedFalls(f);
  }

  lemma ListedBlock<V(!new)>(f: Forest<V>, heads: seq<V>, components: seq<set<V>>, h: V) returns (i: int)
    requires HeadInv(f, [], heads, components) && IsHead(f, h)
    ensures 0 <= i < |components| && i < |heads| && heads[i] == h && components[i] == Block(f, h)
  {
    assert h in heads;
    i :| 0 <= i < |heads| && heads[i] == h;
  }

  lemma FinishedCover<V(!new)>(g: Graph<V>, f: Forest<V>, heads: seq<V>, components: seq<set<V>>)
    requires Undirected(g) && IsDfsForest(g, f) && HeadInv(f, [], heads, components)
    ensures EdgesAreCovered(g, components)
  {
    forall u, v | u in g && v in g[u] ensures exists i :: Together(components, i, u, v) {
      var h := EdgeInBlock(g, f, u, v);
      var i := ListedBlock(f, heads, components, h);
      assert Together(components, i, u, v);
    }
  }

  lemma FinishedShare<V(!new)>(g: Graph<V>, f: Forest<V>, heads: seq<V>, components: seq<set<V>>)
    requires IsDfsForest(g, f) && HeadInv(f, [], heads, components)
    ensures ShareOneNode(components)
  {
    forall i, j, x, y | Together(components, i, x, y) && Together(components, j, x, y) && i != j ensures x == y {
      assert heads[i] in heads && heads[j] in heads;
      BlocksShareOneNode(f, heads[i], heads[j], x, y);
    }
  }

  lemma FinishedLoops<V(!new)>(g: Graph<V>, f: Forest<V>, heads: seq<V>, components: seq<set<V>>)
    requires Undirected(g) && IsDfsForest(g, f) && HeadInv(f, [], heads, components)
    ensures LoopsAreInside(g, components)
  {
    forall c: seq<V> | IsLoop(g, c) ensures exists i :: AllTogether(components, i, c) {
      var h := LoopInBlock(g, f, c);
      var i := ListedBlock(f, heads, components, h);
      assert AllTogether(components, i, c);
    }
  }

  lemma FinishedNoCut<V(!new)>(g: Graph<V>, f: Forest<V>, h: V)
    requires Undirected(g) && IsDfsForest(g, f) && IsHead(f, h)
    ensures Block(f, h) <= g.Keys && HoldsEdge(g, Block(f, h)) && HasNoCutNode(g, Block(f, h))
  {
    assert Above(f, Parent(f, h), h);
    assert Parent(f, h) in Block(f, h) && h in Block(f, h) && h in g[Parent(f, h)];
    forall z, x, y | x in Block(f, h) - {z} && y in Block(f, h) - {z} ensures Linked(g, Block(f, h) - {z}, x, y) {
      BlockHasNoCutNode(g, f, h, z, x, y);
    }
  }

  lemma FinishedBlocks<V(!new)>(g: Graph<V>, f: Forest<V>, heads: seq<V>, components: seq<set<V>>)
    requires Undirected(g) && IsDfsForest(g, f) && HeadInv(f, [], heads, components)
    ensures AreBlocks(g, components)
  {
    FinishedCover(g, f, heads, components);
    FinishedShare(g, f, heads, components);
    FinishedLoops(g, f, heads, components);
    forall i | 0 <= i < |components|
      ensures IsWhole(g, components, i) {
      assert heads[i] in heads;
      FinishedNoCut(g, f, heads[i]);
    }
  }

  // ----- The moves -----

  /** The invariant has five parts; a proof opens it with OpenInv and puts it together with CloseParts. */
  datatype Part = TreePart | RestPart | LowPart | HeadPart | EdgePart

  ghost predicate Holds<V(!new)>(part: Part, g: Graph<V>, f: Forest<V>, clock: int, stack: seq<V>,
                                 rest: map<V, seq<V>>, heads: seq<V>, components: seq<set<V>>, edges: seq<(V, V)>,
                                 marks: seq<int>)
  {
    match part
    case TreePart => TreeInv(g, f, stack, clock)
    case RestPart => RestInv(g, f, stack, rest)
    case LowPart => LowInv(g, f, stack, rest)
    case HeadPart => HeadInv(f, stack, heads, components)
    case EdgePart => EdgeInv(f, stack, heads, edges, marks)
  }

  ghost predicate SearchInv<V(!new)>(g: Graph<V>, f: Forest<V>, clock: int, stack: seq<V>, rest: map<V, seq<V>>,
                                     heads: seq<V>, components: seq<set<V>>, edges: seq<(V, V)>, marks: seq<int>)
  {
    forall part :: Holds(part, g, f, clock, stack, rest, heads, components, edges, marks)
  }

  lemma OpenInv<V(!new)>(g: Graph<V>, f: Forest<V>, clock: int, stack: seq<V>, rest: map<V, seq<V>>, heads: seq<V>,
                         components: seq<set<V>>, edges: seq<(V, V)>, marks: seq<int>)
    requires SearchInv(g, f, clock, stack, rest, heads, components, edges, marks)
    ensures TreeInv(g, f, stack, clock) && RestInv(g, f, stack, rest) && LowInv(g, f, stack, rest)
    ensures HeadInv(f, stack, heads, components) && EdgeInv(f, stack, heads, edges, marks)
  {
    assert Holds(TreePart, g, f, clock, stack, rest, heads, components, edges, marks);
    assert Holds(RestPart, g, f, clock, stack, rest, heads, components, edges, marks);
    assert Holds(LowPart, g, f, clock, stack, rest, heads, components, edges, marks);
    assert Holds(HeadPart, g, f, clock, stack, rest, heads, components, edges, marks);
    assert Holds(EdgePart, g, f, clock, stack, rest, heads, components, edges, marks);
  }

  lemma CloseParts<V(!new)>(g: Graph<V>, f: Forest<V>, clock: int, stack: seq<V>, rest: map<V, seq<V>>, heads: seq<V>,
                            components: seq<set<V>>, edges: seq<(V, V)>, marks: seq<int>)
    requires TreeInv(g, f, stack, clock) && RestInv(g, f, stack, rest) && LowInv(g, f, stack, rest)
    requires HeadInv(f, stack, heads, components) && EdgeInv(f, stack, heads, edges, marks)
    ensures SearchInv(g, f, clock, stack, rest, heads, components, edges, marks)
  {
  }

  lemma OneOnStack<V>(x: V)
    ensures [] + [x] == [x]
  {
  }

  lemma StartMove<V(!new)>(g: Graph<V>, f: Forest<V>, clock: int, rest: map<V, seq<V>>, heads: seq<V>,
                           components: seq<set<V>>, edges: seq<(V, V)>, x: V, neighbours: seq<V>)
    requires SearchInv(g, f, clock, [], rest, heads, components, edges, [])
    requires x in g && x !in f.above && forall w :: w in g[x] <==> w in neighbours
    ensures SearchInv(g, AddNode(f, [], x, clock + 1), clock + 1, [x], rest[x := neighbours], heads, components, edges,
      [|edges|])
  {
    OpenInv(g, f, clock, [], rest, heads, components, edges, []);
    OneOnStack(x);
    DiscoverTree(g, f, [], clock, x);
    DiscoverRest(g, f, [], rest, x, clock + 1, neighbours);
    DiscoverLow(g, f, [], rest, x, clock + 1, neighbours);
    DiscoverHeadInv(f, [], heads, components, x, clock + 1);
    DiscoverEdgeInv(f, [], heads, edges, [], x, clock + 1);
    CloseParts(g, AddNode(f, [], x, clock + 1), clock + 1, [x], rest[x := neighbours], heads, components, edges,
      [|edges|]);
  }

  lemma DiscoverMove<V(!new)>(g: Graph<V>, f: Forest<V>, clock: int, stack: seq<V>, rest: map<V, seq<V>>,
                              heads: seq<V>, components: seq<set<V>>, edges: seq<(V, V)>, marks: seq<int>, x: V,
                              neighbours: seq<V>)
    requires SearchInv(g, f, clock, stack, rest, heads, components, edges, marks)
    requires stack != [] && Last(stack) in g && Last(stack) in f.above && x in g[Last(stack)]
    requires x in g && x !in f.above && forall w :: w in g[x] <==> w in neighbours
    ensures SearchInv(g, AddNode(f, stack, x, clock + 1), clock + 1, stack + [x], rest[x := neighbours],
                      heads, components, edges + [(Last(stack), x)], marks + [|edges|])
  {
    OpenInv(g, f, clock, stack, rest, heads, components, edges, marks);
    DiscoverTree(g, f, stack, clock, x);
    DiscoverRest(g, f, stack, rest, x, clock + 1, neighbours);
    DiscoverLow(g, f, stack, rest, x, clock + 1, neighbours);
    DiscoverHeadInv(f, stack, heads, components, x, clock + 1);
    DiscoverEdgeInv(f, stack, heads, edges, marks, x, clock + 1);
    CloseParts(g, AddNode(f, stack, x, clock + 1), clock + 1, stack + [x], rest[x := neighbours],
               heads, components, edges + [(Last(stack), x)], marks + [|edges|]);
  }

  /** After discovering x, its parent c has yielded it. */
  lemma YieldChildMove<V(!new)>(g: Graph<V>, f: Forest<V>, clock: int, stack: seq<V>, rest: map<V, seq<V>>,
                                heads: seq<V>, components: seq<set<V>>, edges: seq<(V, V)>, marks: seq<int>, c: V)
    requires SearchInv(g, f, clock, stack, rest, heads, components, edges, marks)
    requires stack != [] && c in stack && c in rest && rest[c] != [] && rest[c][0] == Last(stack)
    ensures SearchInv(g, f, clock, stack, rest[c := rest[c][1..]], heads, components, edges, marks)
  {
    OpenInv(g, f, clock, stack, rest, heads, components, edges, marks);
    assert Above(f, c, Last(stack));
    YieldInv(g, f, stack, rest, c);
    CloseParts(g, f, clock, stack, rest[c := rest[c][1..]], heads, components, edges, marks);
  }

  lemma SkipMove<V(!new)>(g: Graph<V>, f: Forest<V>, clock: int, stack: seq<V>, rest: map<V, seq<V>>, heads: seq<V>,
                          components: seq<set<V>>, edges: seq<(V, V)>, marks: seq<int>)
    requires SearchInv(g, f, clock, stack, rest, heads, components, edges, marks)
    requires stack != [] && Last(stack) in rest && rest[Last(stack)] != []
    requires Last(stack) in f.depth && Last(stack) in f.parent && Last(stack) in f.disc
    requires var w := rest[Last(stack)][0];
             || (f.depth[Last(stack)] != 0 && w == f.parent[Last(stack)])
             || (w in f.disc && f.disc[w] >= f.disc[Last(stack)])
    ensures SearchInv(g, f, clock, stack, rest[Last(stack) := rest[Last(stack)][1..]], heads, components, edges, marks)
  {
    OpenInv(g, f, clock, stack, rest, heads, components, edges, marks);
    SkipInv(g, f, stack, clock, rest);
    CloseParts(g, f, clock, stack, rest[Last(stack) := rest[Last(stack)][1..]], heads, components, edges, marks);
  }

  lemma BackEdgeMove<V(!new)>(g: Graph<V>, f: Forest<V>, clock: int, stack: seq<V>, rest: map<V, seq<V>>,
                              heads: seq<V>, components: seq<set<V>>, edges: seq<(V, V)>, marks: seq<int>, w: V)
    requires Undirected(g) && SearchInv(g, f, clock, stack, rest, heads, components, edges, marks)
    requires stack != [] && Last(stack) in rest && rest[Last(stack)] != [] && w == rest[Last(stack)][0]
    requires Last(stack) in f.disc && Last(stack) in f.low && w in f.disc && f.disc[w] < f.disc[Last(stack)]
    ensures var f' := Lower(f, Last(stack), Min(f.low[Last(stack)], f.disc[w]));
            SearchInv(g, f', clock, stack, rest[Last(stack) := rest[Last(stack)][1..]], heads, components,
                      edges + [(Last(stack), w)], marks)
  {
    OpenInv(g, f, clock, stack, rest, heads, components, edges, marks);
    var top := Last(stack);
    var value := Min(f.low[top], f.disc[w]);
    var f' := Lower(f, top, value);
    EarlierIsAbove(g, f, stack, rest, w);
    BackEdgeReaches(g, f, top, w);
    LowerTree(g, f, stack, clock, top, value);
    LowerRest(g, f, stack, rest, top, value);
    LowerLow(g, f, stack, rest, top, value, top, w);
    LowerHeadInv(f, stack, heads, components, top, value);
    LowerEdgeInv(f, stack, heads, edges, marks, top, value);
    BackEdgeStacked(g, f', clock, stack, heads, edges, marks, w);
    YieldInv(g, f', stack, rest, top);
    CloseParts(g, f', clock, stack, rest[top := rest[top][1..]], heads, components, edges + [(top, w)], marks);
  }

  lemma BackEdgeStacked<V(!new)>(g: Graph<V>, f: Forest<V>, clock: int, stack: seq<V>, heads: seq<V>,
                                 edges: seq<(V, V)>, marks: seq<int>, w: V)
    requires TreeInv(g, f, stack, clock) && HeadsAreListed(f, stack, heads) && EdgeInv(f, stack, heads, edges, marks)
    requires stack != [] && Above(f, w, Last(stack)) && w != Last(stack) && f.low[Last(stack)] <= f.disc[w]
    ensures EdgeInv(f, stack, heads, edges + [(Last(stack), w)], marks)
  {
    HeadsAreOff(f, stack, heads);
    BackEdgeIsOpen(f, stack, heads, w);
    BackEdgeEdges(f, heads, edges, (Last(stack), w));
    BackEdgeMarks(f, stack, edges, marks, w);
  }

  /** Handing the low link of the top of the stack to its parent. */
  lemma HandDownMove<V(!new)>(g: Graph<V>, f: Forest<V>, clock: int, stack: seq<V>, rest: map<V, seq<V>>,
                              heads: seq<V>, components: seq<set<V>>, edges: seq<(V, V)>, marks: seq<int>, p: V)
    requires SearchInv(g, f, clock, stack, rest, heads, components, edges, marks)
    requires |stack| > 1 && p == stack[|stack| - 2] && p in f.low && Last(stack) in f.low
    ensures SearchInv(g, Lower(f, p, Min(f.low[p], f.low[Last(stack)])), clock, stack, rest, heads, components, edges,
      marks)
  {
    OpenInv(g, f, clock, stack, rest, heads, components, edges, marks);
    var top := Last(stack);
    assert stack[|stack| - 1] in f.parent && stack[|stack| - 1] in f.depth;
    var value := Min(f.low[p], f.low[top]);
    var u, w := p, p;
    if f.low[top] < f.low[p] { u, w := ParentReaches(g, f, p, top); }
    LowerTree(g, f, stack, clock, p, value);
    LowerRest(g, f, stack, rest, p, value);
    LowerLow(g, f, stack, rest, p, value, u, w);
    LowerHeadInv(f, stack, heads, components, p, value);
    LowerEdgeInv(f, stack, heads, edges, marks, p, value);
    CloseParts(g, Lower(f, p, value), clock, stack, rest, heads, components, edges, marks);
  }

  /** x's low link has reached its parent. */
  ghost predicate HandedDown<V>(f: Forest<V>, x: V) {
    x in f.depth && x in f.parent && x in f.low && f.depth[x] != 0 && f.parent[x] in f.low ==>
      f.low[f.parent[x]] <= f.low[x]
  }

  lemma LeaveMove<V(!new)>(g: Graph<V>, f: Forest<V>, clock: int, stack: seq<V>, rest: map<V, seq<V>>, heads: seq<V>,
                           components: seq<set<V>>, edges: seq<(V, V)>, marks: seq<int>)
    requires SearchInv(g, f, clock, stack, rest, heads, components, edges, marks)
    requires stack != [] && !IsHead(f, Last(stack)) && Last(stack) in rest && rest[Last(stack)] == []
    requires Last(stack) in f.above && HandedDown(f, Last(stack)) && |marks| == |stack|
    ensures SearchInv(g, f, clock, stack[..|stack| - 1], rest, heads, components, edges, marks[..|stack| - 1])
  {
    OpenInv(g, f, clock, stack, rest, heads, components, edges, marks);
    LeaveTree(g, f, stack, clock);
    LeaveRest(g, f, stack, rest);
    LeaveLow(g, f, stack, rest);
    LeaveInv(f, stack, heads, components, edges, marks);
    CloseParts(g, f, clock, stack[..|stack| - 1], rest, heads, components, edges, marks[..|stack| - 1]);
  }

  lemma CloseMove<V(!new)>(g: Graph<V>, f: Forest<V>, clock: int, stack: seq<V>, rest: map<V, seq<V>>, heads: seq<V>,
                           components: seq<set<V>>, edges: seq<(V, V)>, marks: seq<int>)
    requires SearchInv(g, f, clock, stack, rest, heads, components, edges, marks)
    requires |stack| > 1 && IsHead(f, Last(stack)) && Last(stack) in rest && rest[Last(stack)] == []
    requires HandedDown(f, Last(stack))
    ensures var n := |stack| - 1;
            && |marks| == |stack| && 0 <= marks[n] <= |edges|
            && SearchInv(g, f, clock, stack[..n], rest, heads + [stack[n]], components + [Ends(edges[marks[n]..])],
                         edges[..marks[n]], marks[..n])
  {
    var n := |stack| - 1;
    OpenInv(g, f, clock, stack, rest, heads, components, edges, marks);
    LeaveTree(g, f, stack, clock);
    LeaveRest(g, f, stack, rest);
    LeaveLow(g, f, stack, rest);
    CloseInv(f, stack, heads, components, edges, marks);
    CloseParts(g, f, clock, stack[..n], rest, heads + [stack[n]], components + [Ends(edges[marks[n]..])],
      edges[..marks[n]], marks[..n]);
  }

  // ----- The search -----

  ghost predicate Lists<V(!new)>(listing: seq<V>, s: set<V>) {
    forall v :: v in listing <==> v in s
  }

  /** Some listing of a set; the source sorts, and no result depends on the order. */
  method Listed<V(==, !new)>(s: set<V>) returns (listing: seq<V>)
    ensures Lists(listing, s)
  {
    listing := [];
    var left := s;
    while left != {}
      invariant left <= s
      invariant forall v :: v in listing <==> v in s && v !in left
    {
      var v :| v in left;
      listing := listing + [v];
      left := left - {v};
    }
  }

  /** Pops edges up to and including e, and gathers their ends. */
  method PopComponent<V(==)>(edges: seq<(V, V)>, e: (V, V), ghost m: int) returns (kept: seq<(V, V)>, vertices: set<V>)
    requires 0 <= m < |edges| && edges[m] == e && forall k :: m < k < |edges| ==> edges[k] != e
    ensures kept == edges[..m] && vertices == Ends(edges[m..])
  {
    kept, vertices := edges, {};
    while kept != []
      invariant m < |kept| <= |edges| && kept == edges[..|kept|]
      invariant vertices == Ends(edges[|kept|..])
    {
      var n := |kept| - 1;
      var edge := kept[n];
      assert edges[n..][1..] == edges[n + 1..];
      kept := kept[..n];
      vertices := vertices + {edge.0, edge.1};
      if edge == e {
        break;
      }
    }
  }

  /** The search's maps agree with the forest; a root has no parent. */
  ghost predicate Mirrors<V(!new)>(f: Forest<V>, discovery: map<V, int>, low: map<V, int>, parent: map<V, Option<V>>) {
    && SameKeys(f) && f.disc == discovery && f.low == low && parent.Keys == f.above.Keys
    && forall x :: x in parent ==> parent[x] == if f.depth[x] == 0 then None else Some(f.parent[x])
  }

  lemma DiscoverMirrors<V(!new)>(f: Forest<V>, stack: seq<V>, discovery: map<V, int>, low: map<V, int>,
                                 parent: map<V, Option<V>>, x: V, time: int)
    requires Mirrors(f, discovery, low, parent) && (stack != [] ==> Last(stack) in f.above)
    ensures Mirrors(AddNode(f, stack, x, time), discovery[x := time], low[x := time],
                    parent[x := if stack == [] then None else Some(Last(stack))])
  {
    assert SameKeys(AddNode(f, stack, x, time));
  }

  lemma LowerMirrors<V(!new)>(f: Forest<V>, discovery: map<V, int>, low: map<V, int>, parent: map<V, Option<V>>, y: V,
                              value: int)
    requires Mirrors(f, discovery, low, parent) && y in low
    ensures Mirrors(Lower(f, y, value), discovery, low[y := value], parent)
  {
    assert SameKeys(Lower(f, y, value));
  }

  lemma KeysAfter<K, T>(m: map<K, T>, k: K, value: T)
    ensures m[k := value].Keys == m.Keys + {k}
  {
  }

  lemma UpdatesCommute<K, T>(m: map<K, T>, a: K, x: T, b: K, y: T)
    requires a != b
    ensures m[a := x][b := y] == m[b := y][a := x]
  {
  }

  lemma Undiscovered<V(!new)>(f: Forest<V>, discovery: map<V, int>, low: map<V, int>, parent: map<V, Option<V>>, x: V)
    requires Mirrors(f, discovery, low, parent) && x !in discovery
    ensures x !in f.above
  {
  }

  lemma TopHasNeighbours<V(!new)>(g: Graph<V>, f: Forest<V>, stack: seq<V>, rest: map<V, seq<V>>, top: V)
    requires Undirected(g) && RestIsPending(g, f, stack, rest) && top in f.above
    ensures top in g && top in rest
    ensures rest[top] != [] ==> rest[top][0] in g[top] && rest[top][0] in g
  {
    if rest[top] != [] { assert rest[top][0] in rest[top]; }
  }

  lemma TopInTree<V(!new)>(g: Graph<V>, f: Forest<V>, clock: int, stack: seq<V>, top: V, discovery: map<V, int>,
                           low: map<V, int>, parent: map<V, Option<V>>)
    requires TreeInv(g, f, stack, clock) && Mirrors(f, discovery, low, parent) && stack != [] && top == Last(stack)
    ensures top in f.above && top in f.low && top in discovery && top in low && top in parent
    ensures discovery.Keys <= g.Keys
  {
    assert stack[|stack| - 1] in f.depth;
  }

  lemma Emptied<V(!new)>(g: Graph<V>, f: Forest<V>, clock: int, stack: seq<V>, rest: map<V, seq<V>>, heads: seq<V>,
                         components: seq<set<V>>, edges: seq<(V, V)>, marks: seq<int>)
    requires SearchInv(g, f, clock, stack, rest, heads, components, edges, marks) && stack == []
    ensures SearchInv(g, f, clock, [], rest, heads, components, edges, [])
  {
    OpenInv(g, f, clock, stack, rest, heads, components, edges, marks);
    assert marks == [];
  }

  /** What the code needs to know about the node on top of the traversal stack. */
  lemma TopIsKnown<V(!new)>(g: Graph<V>, f: Forest<V>, clock: int, stack: seq<V>, rest: map<V, seq<V>>, heads: seq<V>,
                            components: seq<set<V>>, edges: seq<(V, V)>, marks: seq<int>, discovery: map<V, int>,
                            low: map<V, int>, parent: map<V, Option<V>>, top: V)
    requires Undirected(g) && SearchInv(g, f, clock, stack, rest, heads, components, edges, marks)
    requires Mirrors(f, discovery, low, parent) && stack != [] && top == Last(stack)
    ensures top in g && top in rest && (rest[top] != [] ==> rest[top][0] in g[top] && rest[top][0] in g)
    ensures top in f.above && top in f.low && top in discovery && top in low && top in parent
    ensures discovery.Keys <= g.Keys
  {
    OpenInv(g, f, clock, stack, rest, heads, components, edges, marks);
    TopInTree(g, f, clock, stack, top, discovery, low, parent);
    TopHasNeighbours(g, f, stack, rest, top);
  }

  ghost function Unseen<V>(g: Graph<V>, seen: set<V>): set<V> {
    g.Keys - seen
  }

  lemma UnseenFalls<V>(g: Graph<V>, seen: set<V>, seen': set<V>, x: V)
    requires x in g && x !in seen && seen' == seen + {x}
    ensures Unseen(g, seen') < Unseen(g, seen)
  {
    assert x in Unseen(g, seen);
  }

  ghost function Pending<V(!new)>(stack: seq<V>, rest: map<V, seq<V>>): nat {
    if stack != [] && Last(stack) in rest then |rest[Last(stack)]| else 0
  }

  lemma PendingFalls<V(!new)>(stack: seq<V>, rest: map<V, seq<V>>, x: V)
    requires stack != [] && x == Last(stack) && x in rest && rest[x] != []
    ensures Pending(stack, rest[x := rest[x][1..]]) < Pending(stack, rest)
  {
  }

  lemma StartOver<V(!new)>(g: Graph<V>, f: Forest<V>)
    requires f == Forest(map[], map[], map[], map[], map[])
    ensures TreeInv(g, f, [], 0) && RestInv(g, f, [], map[])
  {
  }

  lemma StartOverLow<V(!new)>(g: Graph<V>, f: Forest<V>)
    requires f == Forest(map[], map[], map[], map[], map[])
    ensures LowInv(g, f, [], map[]) && Mirrors(f, map[], map[], map[])
  {
  }

  lemma StartOverEdges<V(!new)>(f: Forest<V>)
    requires f == Forest(map[], map[], map[], map[], map[])
    ensures HeadInv(f, [], [], []) && EdgeInv(f, [], [], [], [])
  {
    assert forall x :: !Open(f, [], x);
  }

  ghost predicate Covered<V(!new)>(nodes: seq<V>, n: int, known: set<V>) {
    forall j :: 0 <= j < n <= |nodes| ==> nodes[j] in known
  }

  lemma CoverNext<V(!new)>(nodes: seq<V>, n: int, known: set<V>, known': set<V>)
    requires 0 <= n < |nodes| && Covered(nodes, n, known) && known + {nodes[n]} <= known'
    ensures Covered(nodes, n + 1, known')
  {
  }

  lemma CoverKnown<V(!new)>(nodes: seq<V>, n: int, known: set<V>)
    requires 0 <= n < |nodes| && Covered(nodes, n, known) && nodes[n] in known
    ensures Covered(nodes, n + 1, known)
  {
  }

  lemma AllDiscovered<V(!new)>(g: Graph<V>, f: Forest<V>, nodes: seq<V>, discovery: map<V, int>, low: map<V, int>,
                               parent: map<V, Option<V>>)
    requires IsForest(g, f) && Mirrors(f, discovery, low, parent)
    requires Lists(nodes, g.Keys) && Covered(nodes, |nodes|, discovery.Keys)
    ensures f.above.Keys == g.Keys
  {
    forall v | v in g ensures v in f.above {
      assert v in nodes;
    }
  }

  method DiscoverRoot<V(==, !new)>(graph: Graph<V>, node: V, discovery: map<V, int>, low: map<V, int>,
                                   parent: map<V, Option<V>>, clock: int, unyielded: map<V, seq<V>>,
                                   edgeStack: seq<(V, V)>, components: seq<set<V>>, ghost f: Forest<V>,
                                   ghost heads: seq<V>)
    returns (discovery': map<V, int>, low': map<V, int>, parent': map<V, Option<V>>, clock': int,
      traversal: seq<V>, unyielded': map<V, seq<V>>, ghost f': Forest<V>, ghost marks: seq<int>)
    requires SearchInv(graph, f, clock, [], unyielded, heads, components, edgeStack, [])
    requires Mirrors(f, discovery, low, parent) && node in graph && node !in discovery
    ensures SearchInv(graph, f', clock', traversal, unyielded', heads, components, edgeStack, marks)
    ensures Mirrors(f', discovery', low', parent')
    ensures discovery'.Keys == discovery.Keys + {node}
  {
    Undiscovered(f, discovery, low, parent, node);
    KeysAfter(discovery, node, clock + 1);
    clock' := clock + 1;
    discovery', low', parent' := discovery[node := clock'], low[node := clock'], parent[node := None];
    var neighbours := Listed(graph[node]);
    traversal := [node];
    unyielded' := unyielded[node := neighbours];
    StartMove(graph, f, clock, unyielded, heads, components, edgeStack, node, neighbours);
    DiscoverMirrors(f, [], discovery, low, parent, node, clock');
    f' := AddNode(f, [], node, clock');
    marks := [|edgeStack|];
  }

  /** The current node's next neighbour is new: it becomes the current node. */
  method DiscoverNeighbour<V(==, !new)>(graph: Graph<V>, current: V, neighbour: V, discovery: map<V, int>,
                                        low: map<V, int>, parent: map<V, Option<V>>, clock: int, traversal: seq<V>,
                                        unyielded: map<V, seq<V>>, edgeStack: seq<(V, V)>, components: seq<set<V>>,
                                        ghost f: Forest<V>, ghost heads: seq<V>, ghost marks: seq<int>)
    returns (discovery': map<V, int>, low': map<V, int>, parent': map<V, Option<V>>, clock': int, traversal': seq<V>,
      unyielded': map<V, seq<V>>, edgeStack': seq<(V, V)>, ghost f': Forest<V>, ghost marks': seq<int>)
    requires SearchInv(graph, f, clock, traversal, unyielded, heads, components, edgeStack, marks)
    requires Mirrors(f, discovery, low, parent) && traversal != [] && current == Last(traversal) && current in f.above
    requires current in graph && neighbour in graph && neighbour in graph[current] && neighbour !in discovery
    requires current in unyielded && unyielded[current] != [] && unyielded[current][0] == neighbour
    ensures SearchInv(graph, f', clock', traversal', unyielded', heads, components, edgeStack', marks')
    ensures Mirrors(f', discovery', low', parent')
    ensures discovery'.Keys == discovery.Keys + {neighbour}
  {
    Undiscovered(f, discovery, low, parent, neighbour);
    KeysAfter(discovery, neighbour, clock + 1);
    var neighbours := Listed(graph[neighbour]);
    DiscoverMove(graph, f, clock, traversal, unyielded, heads, components, edgeStack, marks, neighbour, neighbours);
    DiscoverMirrors(f, traversal, discovery, low, parent, neighbour, clock + 1);
    clock' := clock + 1;
    f' := AddNode(f, traversal, neighbour, clock');
    marks' := marks + [|edgeStack|];
    edgeStack' := edgeStack + [(current, neighbour)];
    discovery', low' := discovery[neighbour := clock'], low[neighbour := clock'];
    parent' := parent[neighbour := Some(current)];
    traversal' := traversal + [neighbour];
    ghost var added := unyielded[neighbour := neighbours];
    YieldChildMove(graph, f', clock', traversal', added, heads, components, edgeStack', marks', current);
    unyielded' := unyielded[current := unyielded[current][1..]][neighbour := neighbours];
    UpdatesCommute(unyielded, current, unyielded[current][1..], neighbour, neighbours);
  }

  /** The current node's next neighbour was discovered before it. */
  method StackBackEdge<V(==, !new)>(graph: Graph<V>, current: V, neighbour: V, discovery: map<V, int>,
                                    low: map<V, int>, parent: map<V, Option<V>>, ghost clock: int,
                                    ghost traversal: seq<V>, unyielded: map<V, seq<V>>, edgeStack: seq<(V, V)>,
                                    ghost components: seq<set<V>>, ghost f: Forest<V>, ghost heads: seq<V>,
                                    ghost marks: seq<int>)
    returns (low': map<V, int>, unyielded': map<V, seq<V>>, edgeStack': seq<(V, V)>, ghost f': Forest<V>)
    requires SearchInv(graph, f, clock, traversal, unyielded, heads, components, edgeStack, marks) && Undirected(graph)
    requires Mirrors(f, discovery, low, parent) && traversal != [] && current == Last(traversal)
    requires current in unyielded && unyielded[current] != [] && unyielded[current][0] == neighbour
    requires current in discovery && current in low && neighbour in discovery
      && discovery[neighbour] < discovery[current]
    ensures SearchInv(graph, f', clock, traversal, unyielded', heads, components, edgeStack', marks)
    ensures Mirrors(f', discovery, low', parent)
    ensures unyielded' == unyielded[current := unyielded[current][1..]]
  {
    BackEdgeMove(graph, f, clock, traversal, unyielded, heads, components, edgeStack, marks, neighbour);
    LowerMirrors(f, discovery, low, parent, current, Min(low[current], discovery[neighbour]));
    f' := Lower(f, current, Min(low[current], discovery[neighbour]));
    edgeStack' := edgeStack + [(current, neighbour)];
    low' := low[current := if low[current] <= discovery[neighbour] then low[current] else discovery[neighbour]];
    unyielded' := unyielded[current := unyielded[current][1..]];
  }

  lemma TopIsHead<V(!new)>(f: Forest<V>, top: V, p: V, discovery: map<V, int>, low: map<V, int>,
                           parent: map<V, Option<V>>)
    requires Mirrors(f, discovery, low, parent) && top in parent && parent[top] == Some(p) && top in low
      && p in discovery
    ensures IsHead(f, top) <==> low[top] >= discovery[p]
    ensures top in f.depth && top in f.parent && f.depth[top] != 0 && f.parent[top] == p
  {
  }

  lemma RootIsNoHead<V(!new)>(f: Forest<V>, top: V, discovery: map<V, int>, low: map<V, int>, parent: map<V, Option<V>>)
    requires Mirrors(f, discovery, low, parent) && top in parent && parent[top] == None
    ensures !IsHead(f, top) && HandedDown(f, top)
  {
  }

  /** Passes the current node's low link on to its parent. */
  method HandDown<V(==, !new)>(graph: Graph<V>, current: V, ancestor: V, discovery: map<V, int>, low: map<V, int>,
                               parent: map<V, Option<V>>, ghost clock: int, ghost traversal: seq<V>,
                               ghost unyielded: map<V, seq<V>>, ghost edgeStack: seq<(V, V)>,
                               ghost components: seq<set<V>>, ghost f: Forest<V>, ghost heads: seq<V>,
                               ghost marks: seq<int>)
    returns (low': map<V, int>, ghost f': Forest<V>)
    requires SearchInv(graph, f, clock, traversal, unyielded, heads, components, edgeStack, marks)
    requires Mirrors(f, discovery, low, parent) && |traversal| > 1 && current == Last(traversal)
    requires ancestor == traversal[|traversal| - 2] && ancestor in low && current in low && ancestor != current
    ensures SearchInv(graph, f', clock, traversal, unyielded, heads, components, edgeStack, marks)
    ensures Mirrors(f', discovery, low', parent)
    ensures low'.Keys == low.Keys && low'[ancestor] <= low'[current]
  {
    HandDownMove(graph, f, clock, traversal, unyielded, heads, components, edgeStack, marks, ancestor);
    LowerMirrors(f, discovery, low, parent, ancestor, Min(low[ancestor], low[current]));
    f' := Lower(f, ancestor, Min(low[ancestor], low[current]));
    low' := low[ancestor := if low[ancestor] <= low[current] then low[ancestor] else low[current]];
  }

  lemma ParentStacked<V(!new)>(g: Graph<V>, f: Forest<V>, clock: int, stack: seq<V>, rest: map<V, seq<V>>,
                               heads: seq<V>, components: seq<set<V>>, edges: seq<(V, V)>, marks: seq<int>,
                               discovery: map<V, int>, low: map<V, int>, parent: map<V, Option<V>>)
    requires SearchInv(g, f, clock, stack, rest, heads, components, edges, marks)
    requires Mirrors(f, discovery, low, parent) && stack != []
    ensures |marks| == |stack|
    ensures Last(stack) in parent && (parent[Last(stack)] == None <==> |stack| == 1)
    ensures parent[Last(stack)] != None ==> |stack| > 1 && parent[Last(stack)] == Some(stack[|stack| - 2])
    ensures |stack| > 1 ==>
      stack[|stack| - 2] in low && stack[|stack| - 2] in discovery && stack[|stack| - 2] != Last(stack)
  {
    OpenInv(g, f, clock, stack, rest, heads, components, edges, marks);
    assert stack[|stack| - 1] in f.depth;
    if |stack| > 1 { assert stack[|stack| - 1] in f.parent && stack[|stack| - 2] in f.depth; }
  }

  lemma TopMark<V(!new)>(g: Graph<V>, f: Forest<V>, clock: int, stack: seq<V>, rest: map<V, seq<V>>, heads: seq<V>,
                         components: seq<set<V>>, edges: seq<(V, V)>, marks: seq<int>)
    requires SearchInv(g, f, clock, stack, rest, heads, components, edges, marks) && |stack| > 1
    ensures |marks| == |stack| && 0 <= marks[|stack| - 1] < |edges|
    ensures edges[marks[|stack| - 1]] == (stack[|stack| - 2], Last(stack))
    ensures forall k :: marks[|stack| - 1] < k < |edges| ==> edges[k] != (stack[|stack| - 2], Last(stack))
  {
    OpenInv(g, f, clock, stack, rest, heads, components, edges, marks);
    assert MarkIsRight(f, edges, stack[|stack| - 2], stack[|stack| - 1], marks[|stack| - 1]);
  }

  /** The current node has no neighbours left: it is popped, and its component closed if it is a head. */
  method Leave<V(==, !new)>(graph: Graph<V>, current: V, discovery: map<V, int>, low: map<V, int>,
                            parent: map<V, Option<V>>, ghost clock: int, traversal: seq<V>,
                            ghost unyielded: map<V, seq<V>>, edgeStack: seq<(V, V)>, components: seq<set<V>>,
                            ghost f: Forest<V>, ghost heads: seq<V>, ghost marks: seq<int>)
    returns (low': map<V, int>, traversal': seq<V>, edgeStack': seq<(V, V)>, components': seq<set<V>>,
      ghost f': Forest<V>, ghost heads': seq<V>, ghost marks': seq<int>)
    requires SearchInv(graph, f, clock, traversal, unyielded, heads, components, edgeStack, marks)
    requires Mirrors(f, discovery, low, parent) && traversal != [] && current == Last(traversal)
    requires current in f.above && current in f.low && current in unyielded && unyielded[current] == []
    ensures SearchInv(graph, f', clock, traversal', unyielded, heads', components', edgeStack', marks')
    ensures Mirrors(f', discovery, low', parent)
    ensures traversal' == traversal[..|traversal| - 1]
  {
    ParentStacked(graph, f, clock, traversal, unyielded, heads, components, edgeStack, marks, discovery, low, parent);
    low', edgeStack', components', f', heads' := low, edgeStack, components, f, heads;
    traversal', marks' := traversal[..|traversal| - 1], marks[..|traversal| - 1];
    var ancestor := parent[current];
    if ancestor == None {
      RootIsNoHead(f, current, discovery, low, parent);
      LeaveMove(graph, f, clock, traversal, unyielded, heads, components, edgeStack, marks);
      return;
    }
    low', f' := HandDown(graph, current, ancestor.value, discovery, low, parent, clock, traversal, unyielded,
                         edgeStack, components, f, heads, marks);
    TopIsHead(f', current, ancestor.value, discovery, low', parent);
    if low'[current] >= discovery[ancestor.value] {
      CloseMove(graph, f', clock, traversal, unyielded, heads, components, edgeStack, marks);
      TopMark(graph, f', clock, traversal, unyielded, heads, components, edgeStack, marks);
      var vertices;
      edgeStack', vertices := PopComponent(edgeStack, (ancestor.value, current), marks[|traversal| - 1]);
      components', heads' := components + [vertices], heads + [current];
    } else {
      LeaveMove(graph, f', clock, traversal, unyielded, heads, components, edgeStack, marks);
    }
  }

  /** The current node's next neighbour is its parent, or was discovered after it. */
  method Skip<V(==, !new)>(ghost graph: Graph<V>, current: V, ghost neighbour: V, ghost discovery: map<V, int>,
                           ghost low: map<V, int>, ghost parent: map<V, Option<V>>, ghost clock: int,
                           ghost traversal: seq<V>, unyielded: map<V, seq<V>>, ghost edgeStack: seq<(V, V)>,
                           ghost components: seq<set<V>>, ghost f: Forest<V>, ghost heads: seq<V>,
                           ghost marks: seq<int>)
    returns (unyielded': map<V, seq<V>>)
    requires SearchInv(graph, f, clock, traversal, unyielded, heads, components, edgeStack, marks)
    requires Mirrors(f, discovery, low, parent) && traversal != [] && current == Last(traversal)
    requires current in unyielded && unyielded[current] != [] && unyielded[current][0] == neighbour
    requires current in parent && current in discovery
    requires parent[current] == Some(neighbour) || (neighbour in discovery
      && discovery[neighbour] >= discovery[current])
    ensures SearchInv(graph, f, clock, traversal, unyielded', heads, components, edgeStack, marks)
    ensures unyielded' == unyielded[current := unyielded[current][1..]]
  {
    SkipMove(graph, f, clock, traversal, unyielded, heads, components, edgeStack, marks);
    unyielded' := unyielded[current := unyielded[current][1..]];
  }

  ghost predicate Grows<V>(a: set<V>, b: set<V>) {
    a <= b
  }

  /** Explores everything reachable from a new root. */
  method Explore<V(==, !new)>(graph: Graph<V>, root: V, discovery0: map<V, int>, low0: map<V, int>,
                              parent0: map<V, Option<V>>, clock0: int, unyielded0: map<V, seq<V>>,
                              edgeStack0: seq<(V, V)>, components0: seq<set<V>>, ghost f0: Forest<V>,
                              ghost heads0: seq<V>)
    returns (discovery: map<V, int>, low: map<V, int>, parent: map<V, Option<V>>, clock: int, unyielded: map<V, seq<V>>,
      edgeStack: seq<(V, V)>, components: seq<set<V>>, ghost f: Forest<V>, ghost heads: seq<V>)
    requires SearchInv(graph, f0, clock0, [], unyielded0, heads0, components0, edgeStack0, [])
    requires Mirrors(f0, discovery0, low0, parent0) && root in graph && root !in discovery0 && Undirected(graph)
    ensures SearchInv(graph, f, clock, [], unyielded, heads, components, edgeStack, [])
    ensures Mirrors(f, discovery, low, parent)
    ensures Grows(discovery0.Keys + {root}, discovery.Keys)
  {
    edgeStack, components, heads := edgeStack0, components0, heads0;
    var traversal;
    ghost var marks;
    discovery, low, parent, clock, traversal, unyielded, f, marks :=
      DiscoverRoot(graph, root, discovery0, low0, parent0, clock0, unyielded0, edgeStack0, components0, f0, heads0);
    while traversal != []
      invariant SearchInv(graph, f, clock, traversal, unyielded, heads, components, edgeStack, marks)
      invariant Mirrors(f, discovery, low, parent)
      invariant Grows(discovery0.Keys + {root}, discovery.Keys)
      decreases Unseen(graph, discovery.Keys), |traversal|, Pending(traversal, unyielded)
    {
      var current := traversal[|traversal| - 1];
      TopIsKnown(graph, f, clock, traversal, unyielded, heads, components, edgeStack, marks, discovery, low, parent,
        current);
      if unyielded[current] == [] {
        low, traversal, edgeStack, components, f, heads, marks :=
          Leave(graph, current, discovery, low, parent, clock, traversal, unyielded, edgeStack, components, f, heads,
            marks);
        continue;
      }
      var neighbour := unyielded[current][0];
      PendingFalls(traversal, unyielded, current);
      if parent[current] != Some(neighbour) && neighbour !in discovery {
        ghost var seen := discovery.Keys;
        discovery, low, parent, clock, traversal, unyielded, edgeStack, f, marks :=
          DiscoverNeighbour(graph, current, neighbour, discovery, low, parent, clock, traversal, unyielded, edgeStack,
                            components, f, heads, marks);
        UnseenFalls(graph, seen, discovery.Keys, neighbour);
      } else if parent[current] != Some(neighbour) && discovery[neighbour] < discovery[current] {
        low, unyielded, edgeStack, f :=
          StackBackEdge(graph, current, neighbour, discovery, low, parent, clock, traversal, unyielded, edgeStack,
                        components, f, heads, marks);
      } else {
        unyielded := Skip(graph, current, neighbour, discovery, low, parent, clock, traversal, unyielded, edgeStack,
                          components, f, heads, marks);
      }
    }
    Emptied(graph, f, clock, traversal, unyielded, heads, components, edgeStack, marks);
  }

  lemma Begin<V(!new)>(g: Graph<V>, f: Forest<V>)
    requires f == Forest(map[], map[], map[], map[], map[])
    ensures SearchInv(g, f, 0, [], map[], [], [], [], []) && Mirrors(f, map[], map[], map[])
  {
    StartOver(g, f);
    StartOverLow(g, f);
    StartOverEdges(f);
    CloseParts(g, f, 0, [], map[], [], [], [], []);
  }

  lemma Finish<V(!new)>(g: Graph<V>, nodes: seq<V>, f: Forest<V>, clock: int, rest: map<V, seq<V>>, heads: seq<V>,
                        components: seq<set<V>>, edges: seq<(V, V)>, discovery: map<V, int>, low: map<V, int>,
                        parent: map<V, Option<V>>)
    requires Undirected(g) && SearchInv(g, f, clock, [], rest, heads, components, edges, [])
    requires Mirrors(f, discovery, low, parent)
    requires Lists(nodes, g.Keys) && Covered(nodes, |nodes|, discovery.Keys)
    ensures AreBlocks(g, components)
  {
    OpenInv(g, f, clock, [], rest, heads, components, edges, []);
    AllDiscovered(g, f, nodes, discovery, low, parent);
    FinishedForest(g, f, clock, rest);
    FinishedBlocks(g, f, heads, components);
  }

  /** The components that the search returns are the blocks of the graph. */
  method BiconnectedComponents<V(==, !new)>(graph: Graph<V>) returns (components: seq<set<V>>)
    requires Undirected(graph)
    ensures AreBlocks(graph, components)
  {
    var discovery: map<V, int>, low: map<V, int>, parent: map<V, Option<V>> := map[], map[], map[];
    var edgeStack: seq<(V, V)>, clock := [], 0;
    var unyielded: map<V, seq<V>> := map[];
    components := [];
    ghost var f: Forest<V>, heads: seq<V> := Forest(map[], map[], map[], map[], map[]), [];
    Begin(graph, f);
    var nodes := Listed(graph.Keys);
    for i := 0 to |nodes|
      invariant SearchInv(graph, f, clock, [], unyielded, heads, components, edgeStack, [])
      invariant Mirrors(f, discovery, low, parent)
      invariant Covered(nodes, i, discovery.Keys)
    {
      if nodes[i] in discovery {
        CoverKnown(nodes, i, discovery.Keys);
        continue;
      }
      ghost var before := discovery.Keys;
      discovery, low, parent, clock, unyielded, edgeStack, components, f, heads :=
        Explore(graph, nodes[i], discovery, low, parent, clock, unyielded, edgeStack, components, f, heads);
      CoverNext(nodes, i, before, discovery.Keys);
    }
    Finish(graph, nodes, f, clock, unyielded, heads, components, edgeStack, discovery, low, parent);
  }
}

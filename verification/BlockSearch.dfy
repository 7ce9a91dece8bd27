/** The invariant of the iterative low-link search, piece by piece, and the moves that keep it. */
module BlockSearch {
  import opened Blocks

  // ----- The invariant -----

  ghost function Last<V>(stack: seq<V>): V
    requires stack != []
  {
    stack[|stack| - 1]
  }

  ghost predicate IsForest<V(!new)>(g: Graph<V>, f: Forest<V>) {
    f.above.Keys <= g.Keys && IsTreeShape(f) && TreeEdges(g, f)
  }

  /** The traversal stack is the branch from a root to the node being explored. */
  ghost predicate StackIsBranch<V(!new)>(f: Forest<V>, stack: seq<V>) {
    && (forall i :: 0 <= i < |stack| ==> stack[i] in f.depth && f.depth[stack[i]] == i)
    && (forall i :: 0 < i < |stack| ==> stack[i] in f.parent && f.parent[stack[i]] == stack[i - 1])
    && (stack != [] ==> forall v :: v in stack <==> Above(f, v, Last(stack)))
  }

  /** Whatever was discovered after a stacked node hangs below it. */
  ghost predicate RecentIsBelow<V(!new)>(f: Forest<V>, stack: seq<V>, clock: int) {
    && (forall x :: x in f.disc ==> f.disc[x] <= clock)
    && (forall t, x :: t in stack && t in f.disc && x in f.disc && f.disc[t] <= f.disc[x] ==> Above(f, t, x))
  }

  /** rest[x] are the neighbours that x's iterator has not yielded; it is exhausted once x leaves the stack. */
  ghost predicate RestIsPending<V(!new)>(g: Graph<V>, f: Forest<V>, stack: seq<V>, rest: map<V, seq<V>>) {
    && rest.Keys == f.above.Keys && rest.Keys <= g.Keys
    && (forall x, w :: x in rest && w in rest[x] ==> w in g[x])
    && (forall x :: x in rest && x !in stack ==> rest[x] == [])
  }

  ghost predicate Yielded<V(!new)>(g: Graph<V>, rest: map<V, seq<V>>, x: V, w: V) {
    x in g && w in g[x] && x in rest && w !in rest[x]
  }

  ghost predicate YieldedAreComparable<V(!new)>(g: Graph<V>, f: Forest<V>, rest: map<V, seq<V>>) {
    forall x, w :: Yielded(g, rest, x, w) ==> w in f.above && (Above(f, x, w) || Above(f, w, x))
  }

  /** Low links are small enough. */
  ghost predicate LowIsSmall<V(!new)>(f: Forest<V>)
    requires SameKeys(f)
  {
    forall x :: x in f.above ==> f.low[x] <= f.disc[x]
  }

  ghost predicate LowBoundsLinks<V(!new)>(g: Graph<V>, f: Forest<V>, rest: map<V, seq<V>>)
    requires SameKeys(f)
  {
    forall x, w :: Yielded(g, rest, x, w) && x in f.above && w in f.above && (f.depth[x] == 0 || w != f.parent[x]) ==>
      f.low[x] <= f.disc[w]
  }

  ghost predicate LowFallsOffStack<V(!new)>(f: Forest<V>, stack: seq<V>)
    requires SameKeys(f)
  {
    forall c {:trigger f.parent[c]} :: c in f.above && c !in stack && f.depth[c] != 0 && f.parent[c] in f.above ==>
      f.low[f.parent[c]] <= f.low[c]
  }

  /** The finished heads are listed once each ... */
  ghost predicate HeadsAreListed<V(!new)>(f: Forest<V>, stack: seq<V>, heads: seq<V>) {
    && (forall i, j :: 0 <= i < j < |heads| ==> heads[i] != heads[j])
    && (forall h :: h in heads <==> h !in stack && IsHead(f, h))
  }

  /** ... and the components are their blocks. */
  ghost predicate ComponentsAreBlocks<V(!new)>(f: Forest<V>, heads: seq<V>, components: seq<set<V>>) {
    && |components| == |heads|
    && (forall i :: 0 <= i < |heads| ==> heads[i] in f.parent && components[i] == Block(f, heads[i]))
  }

  ghost predicate IsTreeEdge<V(!new)>(f: Forest<V>, e: (V, V)) {
    e.1 in f.depth && f.depth[e.1] > 0 && e.1 in f.parent && f.parent[e.1] == e.0
  }

  ghost predicate IsBackEdge<V(!new)>(f: Forest<V>, e: (V, V)) {
    Above(f, e.1, e.0) && e.1 != e.0 && e.0 in f.low && e.1 in f.disc && f.low[e.0] <= f.disc[e.1]
  }

  /** The node on whose behalf an edge was stacked. */
  ghost function Owner<V(!new)>(f: Forest<V>, e: (V, V)): V {
    if IsTreeEdge(f, e) then e.1 else e.0
  }

  /** x is no root and not yet part of a finished component. */
  ghost predicate Open<V(!new)>(f: Forest<V>, heads: seq<V>, x: V) {
    x in f.depth && f.depth[x] > 0 && x in f.parent && forall h :: h in heads ==> !Above(f, h, x)
  }

  ghost predicate EdgeIsOpen<V(!new)>(f: Forest<V>, heads: seq<V>, e: (V, V)) {
    (IsTreeEdge(f, e) || IsBackEdge(f, e)) && Open(f, heads, Owner(f, e))
  }

  ghost predicate EdgesAreOpen<V(!new)>(f: Forest<V>, heads: seq<V>, edges: seq<(V, V)>) {
    && (forall e :: e in edges ==> EdgeIsOpen(f, heads, e))
    && (forall x :: Open(f, heads, x) ==> x in f.parent && (f.parent[x], x) in edges)
  }

  /** From position m on, the edge stack holds the edges owned by x's subtree, and x's tree edge is first. */
  ghost predicate MarkIsRight<V(!new)>(f: Forest<V>, edges: seq<(V, V)>, p: V, x: V, m: int) {
    && 0 <= m < |edges| && edges[m] == (p, x)
    && (forall k :: 0 <= k < |edges| ==> (m <= k <==> Above(f, x, Owner(f, edges[k]))))
    && (forall k :: 0 <= k < |edges| && edges[k] == (p, x) ==> k == m)
  }

  ghost predicate MarksAreRight<V(!new)>(f: Forest<V>, stack: seq<V>, edges: seq<(V, V)>, marks: seq<int>) {
    |marks| == |stack| && forall i :: 1 <= i < |stack| ==> MarkIsRight(f, edges, stack[i - 1], stack[i], marks[i])
  }

  // ----- Adding a node to the forest -----

  ghost function Branch<V(!new)>(f: Forest<V>, stack: seq<V>): set<V>
    requires stack != [] ==> Last(stack) in f.above
  {
    if stack == [] then {} else f.above[Last(stack)]
  }

  /** x as a new leaf below the top of the stack, or as a root when the stack is empty. */
  ghost function AddNode<V(!new)>(f: Forest<V>, stack: seq<V>, x: V, time: int): Forest<V>
    requires stack != [] ==> Last(stack) in f.above
  {
    Forest(f.above[x := Branch(f, stack) + {x}], f.depth[x := |stack|],
           f.parent[x := if stack == [] then x else Last(stack)], f.disc[x := time], f.low[x := time])
  }

  ghost predicate MayGrow<V(!new)>(f: Forest<V>, stack: seq<V>, x: V, time: int) {
    && IsTreeShape(f) && x !in f.above
    && (stack != [] ==> Last(stack) in f.above && Last(stack) in f.depth && f.depth[Last(stack)] == |stack| - 1)
    && forall y :: y in f.disc ==> f.disc[y] < time
  }

  lemma AddNodeAbove<V(!new)>(f: Forest<V>, stack: seq<V>, x: V, time: int, y: V, z: V)
    requires MayGrow(f, stack, x, time)
    ensures z != x ==> (Above(AddNode(f, stack, x, time), y, z) <==> Above(f, y, z))
    ensures Above(AddNode(f, stack, x, time), y, x) <==> y == x || (stack != [] && Above(f, y, Last(stack)))
    ensures Above(AddNode(f, stack, x, time), x, z) ==> z == x
  {
    assert !Above(f, x, z);
  }

  lemma AddNodeKeepsOrder<V(!new)>(f: Forest<V>, stack: seq<V>, x: V, time: int)
    requires MayGrow(f, stack, x, time)
    ensures SameKeys(AddNode(f, stack, x, time)) && AboveIsEarlier(AddNode(f, stack, x, time))
  {
    var f' := AddNode(f, stack, x, time);
    forall y, z | Above(f', y, z) ensures y in f'.above
      && (y != z ==> f'.depth[y] < f'.depth[z] && f'.disc[y] < f'.disc[z]) {
      AddNodeAbove(f, stack, x, time, y, z);
    }
  }

  lemma AddNodeIsTransitive<V(!new)>(f: Forest<V>, stack: seq<V>, x: V, time: int)
    requires MayGrow(f, stack, x, time)
    ensures AboveIsTransitive(AddNode(f, stack, x, time))
  {
    var f' := AddNode(f, stack, x, time);
    forall a, b, z | Above(f', a, b) && Above(f', b, z) ensures Above(f', a, z) {
      AddNodeAbove(f, stack, x, time, a, b);
      AddNodeAbove(f, stack, x, time, b, z);
      AddNodeAbove(f, stack, x, time, a, z);
    }
  }

  lemma AddNodeIsLinear<V(!new)>(f: Forest<V>, stack: seq<V>, x: V, time: int)
    requires MayGrow(f, stack, x, time)
    requires SameKeys(AddNode(f, stack, x, time)) && AboveIsEarlier(AddNode(f, stack, x, time))
    ensures AboveIsLinear(AddNode(f, stack, x, time))
  {
    var f' := AddNode(f, stack, x, time);
    forall z, a, b | Above(f', a, z) && Above(f', b, z) && f'.depth[a] <= f'.depth[b]
      ensures Above(f', a, b) && (f'.depth[a] == f'.depth[b] ==> a == b) {
      AddNodeAbove(f, stack, x, time, a, z);
      AddNodeAbove(f, stack, x, time, b, z);
      AddNodeAbove(f, stack, x, time, a, b);
    }
  }

  lemma ParentIsKnown<V(!new)>(f: Forest<V>, c: V)
    requires SameKeys(f) && ParentsAreAbove(f) && AboveIsEarlier(f) && c in f.above && f.depth[c] != 0
    ensures f.parent[c] in f.above
  {
    assert Above(f, f.parent[c], c);
  }

  lemma AddNodeParent<V(!new)>(f: Forest<V>, stack: seq<V>, x: V, time: int, y: V)
    requires SameKeys(f) && ParentsAreAbove(f) && AboveIsEarlier(f) && x !in f.above && y in f.above && f.depth[y] > 0
    requires stack != [] ==> Last(stack) in f.above
    ensures var f' := AddNode(f, stack, x, time);
            Above(f', f.parent[y], y) && f.parent[y] in f'.depth && f'.depth[f.parent[y]] == f.depth[y] - 1
  {
    assert Above(f, f.parent[y], y);
  }

  lemma AddNodeParents<V(!new)>(f: Forest<V>, stack: seq<V>, x: V, time: int)
    requires MayGrow(f, stack, x, time) && SameKeys(AddNode(f, stack, x, time))
    ensures ParentsAreAbove(AddNode(f, stack, x, time))
  {
    var f' := AddNode(f, stack, x, time);
    forall y | y in f'.above ensures Above(f', y, y) && f'.depth[y] >= 0 {
      assert y != x ==> Above(f, y, y);
    }
    forall y {:trigger f'.parent[y]} | y in f'.above && f'.depth[y] > 0
      ensures Above(f', f'.parent[y], y) && f'.parent[y] in f'.depth && f'.depth[f'.parent[y]] == f'.depth[y] - 1 {
      if y != x {
        AddNodeParent(f, stack, x, time, y);
      } else {
        AddNodeAbove(f, stack, x, time, f'.parent[y], y);
        assert Above(f, Last(stack), Last(stack));
      }
    }
  }

  lemma AddNodeShape<V(!new)>(f: Forest<V>, stack: seq<V>, x: V, time: int)
    requires MayGrow(f, stack, x, time)
    ensures IsTreeShape(AddNode(f, stack, x, time))
  {
    AddNodeKeepsOrder(f, stack, x, time);
    AddNodeParents(f, stack, x, time);
    AddNodeIsTransitive(f, stack, x, time);
    AddNodeIsLinear(f, stack, x, time);
  }

  // ----- Discovering a node -----

  lemma AddNodeBelow<V(!new)>(f: Forest<V>, stack: seq<V>, x: V, time: int)
    requires MayGrow(f, stack, x, time) && StackIsBranch(f, stack)
    ensures forall y, z :: z in f.above ==> (Above(AddNode(f, stack, x, time), y, z) <==> Above(f, y, z))
    ensures forall y :: Above(AddNode(f, stack, x, time), y, x) <==> y == x || y in stack
  {
    forall y, z ensures z in f.above ==> (Above(AddNode(f, stack, x, time), y, z) <==> Above(f, y, z)) {
      AddNodeAbove(f, stack, x, time, y, z);
    }
    forall y ensures Above(AddNode(f, stack, x, time), y, x) <==> y == x || y in stack {
      AddNodeAbove(f, stack, x, time, y, x);
    }
  }

  lemma TopMayGrow<V(!new)>(g: Graph<V>, f: Forest<V>, stack: seq<V>, clock: int, x: V)
    requires IsForest(g, f) && StackIsBranch(f, stack) && RecentIsBelow(f, stack, clock) && x !in f.above
    ensures MayGrow(f, stack, x, clock + 1)
  {
    if stack != [] {
      assert stack[|stack| - 1] in f.depth;
    }
  }

  lemma DiscoverForest<V(!new)>(g: Graph<V>, f: Forest<V>, stack: seq<V>, x: V, time: int)
    requires IsForest(g, f) && MayGrow(f, stack, x, time) && x in g && (stack != [] ==> x in g[Last(stack)])
    ensures IsForest(g, AddNode(f, stack, x, time))
  {
    AddNodeShape(f, stack, x, time);
    var f' := AddNode(f, stack, x, time);
    forall y | y in f'.above && !IsRoot(f', y) ensures Parent(f', y) in g && y in g[Parent(f', y)] {
      if y != x { assert !IsRoot(f, y); }
    }
  }

  lemma DiscoverDepths<V(!new)>(f: Forest<V>, stack: seq<V>, x: V, time: int)
    requires StackIsBranch(f, stack) && x !in f.above && (stack != [] ==> Last(stack) in f.above)
    requires f.depth.Keys == f.above.Keys && f.parent.Keys == f.above.Keys
    ensures var f', stack' := AddNode(f, stack, x, time), stack + [x];
            && (forall i :: 0 <= i < |stack'| ==> stack'[i] in f'.depth && f'.depth[stack'[i]] == i)
            && (forall i :: 0 < i < |stack'| ==> stack'[i] in f'.parent && f'.parent[stack'[i]] == stack'[i - 1])
  {
    forall i | 0 <= i < |stack| ensures stack[i] in f.above {
      assert stack[i] in f.depth;
    }
  }

  lemma DiscoverStack<V(!new)>(f: Forest<V>, stack: seq<V>, x: V, time: int)
    requires MayGrow(f, stack, x, time) && StackIsBranch(f, stack)
    ensures StackIsBranch(AddNode(f, stack, x, time), stack + [x])
  {
    DiscoverDepths(f, stack, x, time);
    var f', stack' := AddNode(f, stack, x, time), stack + [x];
    forall v ensures v in stack' <==> Above(f', v, x) {
      AddNodeAbove(f, stack, x, time, v, x);
      if stack != [] { assert v in stack <==> Above(f, v, Last(stack)); }
      assert v in stack' <==> v in stack || v == x;
    }
  }

  lemma DiscoverRecent<V(!new)>(f: Forest<V>, stack: seq<V>, x: V, clock: int)
    requires MayGrow(f, stack, x, clock + 1) && StackIsBranch(f, stack) && RecentIsBelow(f, stack, clock)
    ensures RecentIsBelow(AddNode(f, stack, x, clock + 1), stack + [x], clock + 1)
  {
    AddNodeBelow(f, stack, x, clock + 1);
  }

  lemma NothingYieldedYet<V(!new)>(g: Graph<V>, rest: map<V, seq<V>>, x: V, neighbours: seq<V>, u: V, w: V)
    requires x in g && forall v :: v in g[x] ==> v in neighbours
    requires Yielded(g, rest[x := neighbours], u, w)
    ensures u != x && Yielded(g, rest, u, w)
  {
  }

  lemma DiscoverComparable<V(!new)>(g: Graph<V>, f: Forest<V>, stack: seq<V>, rest: map<V, seq<V>>, x: V, time: int,
                                    neighbours: seq<V>)
    requires MayGrow(f, stack, x, time) && StackIsBranch(f, stack) && rest.Keys == f.above.Keys
    requires YieldedAreComparable(g, f, rest) && x in g && forall w :: w in g[x] ==> w in neighbours
    ensures YieldedAreComparable(g, AddNode(f, stack, x, time), rest[x := neighbours])
  {
    var f', rest' := AddNode(f, stack, x, time), rest[x := neighbours];
    forall u, w | Yielded(g, rest', u, w) ensures w in f'.above && (Above(f', u, w) || Above(f', w, u)) {
      NothingYieldedYet(g, rest, x, neighbours, u, w);
      AddNodeAbove(f, stack, x, time, u, w);
      AddNodeAbove(f, stack, x, time, w, u);
    }
  }

  lemma DiscoverLowIsSmall<V(!new)>(f: Forest<V>, stack: seq<V>, x: V, time: int)
    requires MayGrow(f, stack, x, time) && LowIsSmall(f)
    ensures SameKeys(AddNode(f, stack, x, time)) && LowIsSmall(AddNode(f, stack, x, time))
  {
  }

  lemma DiscoverLowBounds<V(!new)>(g: Graph<V>, f: Forest<V>, stack: seq<V>, rest: map<V, seq<V>>, x: V, time: int,
                                   neighbours: seq<V>)
    requires MayGrow(f, stack, x, time) && rest.Keys == f.above.Keys && LowBoundsLinks(g, f, rest)
    requires YieldedAreComparable(g, f, rest) && x in g && forall w :: w in g[x] ==> w in neighbours
    ensures SameKeys(AddNode(f, stack, x, time))
    ensures LowBoundsLinks(g, AddNode(f, stack, x, time), rest[x := neighbours])
  {
    var f', rest' := AddNode(f, stack, x, time), rest[x := neighbours];
    forall u, w | Yielded(g, rest', u, w) && w in f'.above && u in f'.above && (f'.depth[u] == 0 || w != f'.parent[u])
      ensures f'.low[u] <= f'.disc[w] {
      NothingYieldedYet(g, rest, x, neighbours, u, w);
    }
  }

  lemma DiscoverLowFalls<V(!new)>(f: Forest<V>, stack: seq<V>, x: V, time: int)
    requires SameKeys(f) && ParentsAreAbove(f) && AboveIsEarlier(f) && LowFallsOffStack(f, stack)
    requires x !in f.above && (stack != [] ==> Last(stack) in f.above) && SameKeys(AddNode(f, stack, x, time))
    ensures LowFallsOffStack(AddNode(f, stack, x, time), stack + [x])
  {
    var f' := AddNode(f, stack, x, time);
    assert (stack + [x])[|stack|] == x;
    forall c {:trigger f'.parent[c]} | c in f'.above && c !in stack + [x] && f'.depth[c] != 0
      ensures f'.low[f'.parent[c]] <= f'.low[c] {
      assert c != x;
      ParentIsKnown(f, c);
    }
  }

  lemma BackLinkStays<V(!new)>(g: Graph<V>, f: Forest<V>, stack: seq<V>, x: V, time: int, y: V, u: V, w: V)
    requires MayGrow(f, stack, x, time) && StackIsBranch(f, stack) && BackLink(g, f, y, u, w)
    ensures BackLink(g, AddNode(f, stack, x, time), y, u, w)
  {
    AddNodeBelow(f, stack, x, time);
  }

  lemma DiscoverLowIsReached<V(!new)>(g: Graph<V>, f: Forest<V>, stack: seq<V>, x: V, time: int)
    requires MayGrow(f, stack, x, time) && StackIsBranch(f, stack) && LowIsReached(g, f)
    ensures LowIsReached(g, AddNode(f, stack, x, time))
  {
    var f' := AddNode(f, stack, x, time);
    forall y | y in f'.low && y in f'.disc && f'.low[y] != f'.disc[y] ensures exists u, w :: BackLink(g, f', y, u, w) {
      var u, w :| BackLink(g, f, y, u, w);
      BackLinkStays(g, f, stack, x, time, y, u, w);
    }
  }

  // ----- Finished blocks do not change -----

  /** f and f' agree about the subtree of h. */
  ghost predicate SameBelow<V(!new)>(f: Forest<V>, f': Forest<V>, h: V) {
    && h in f.parent && h in f'.parent && f.parent[h] == f'.parent[h]
    && (forall x :: Above(f, h, x) <==> Above(f', h, x))
    && (forall v, x :: Above(f, h, x) ==> (Above(f, v, x) <==> Above(f', v, x)))
    && (forall v :: Above(f, h, v) ==> (IsHead(f, v) <==> IsHead(f', v)))
  }

  lemma SameMember<V(!new)>(f: Forest<V>, f': Forest<V>, h: V, x: V)
    requires SameBelow(f, f', h)
    ensures Member(f, h, x) <==> Member(f', h, x)
  {
  }

  lemma SameBlock<V(!new)>(f: Forest<V>, f': Forest<V>, h: V)
    requires SameBelow(f, f', h)
    ensures Block(f, h) == Block(f', h)
  {
    forall x ensures x in f.above && Member(f, h, x) <==> x in f'.above && Member(f', h, x) {
      SameMember(f, f', h, x);
    }
  }

  lemma ComponentsKept<V(!new)>(f: Forest<V>, f': Forest<V>, heads: seq<V>, components: seq<set<V>>)
    requires ComponentsAreBlocks(f, heads, components) && forall h :: h in heads ==> SameBelow(f, f', h)
    ensures ComponentsAreBlocks(f', heads, components)
  {
    forall i | 0 <= i < |heads| ensures heads[i] in f'.parent && components[i] == Block(f', heads[i]) {
      SameBlock(f, f', heads[i]);
    }
  }

  lemma NewLeafKeepsHeads<V(!new)>(f: Forest<V>, stack: seq<V>, x: V, time: int, h: V)
    requires MayGrow(f, stack, x, time) && h != x
    ensures IsHead(AddNode(f, stack, x, time), h) <==> IsHead(f, h)
  {
    if h in f.above && f.depth[h] != 0 { ParentIsKnown(f, h); }
  }

  lemma DiscoverSameBelow<V(!new)>(f: Forest<V>, stack: seq<V>, x: V, time: int, h: V)
    requires MayGrow(f, stack, x, time) && StackIsBranch(f, stack) && h in f.above && h !in stack
    ensures SameBelow(f, AddNode(f, stack, x, time), h)
  {
    AddNodeBelow(f, stack, x, time);
    var f' := AddNode(f, stack, x, time);
    forall v | Above(f, h, v) ensures IsHead(f, v) <==> IsHead(f', v) {
      NewLeafKeepsHeads(f, stack, x, time, v);
    }
  }

  lemma DiscoverHeads<V(!new)>(f: Forest<V>, stack: seq<V>, heads: seq<V>, x: V, time: int)
    requires MayGrow(f, stack, x, time) && HeadsAreListed(f, stack, heads)
    ensures HeadsAreListed(AddNode(f, stack, x, time), stack + [x], heads)
  {
    var f' := AddNode(f, stack, x, time);
    assert (stack + [x])[|stack|] == x;
    forall h ensures h in heads <==> h !in stack + [x] && IsHead(f', h) {
      if h != x { NewLeafKeepsHeads(f, stack, x, time, h); }
    }
  }

  lemma DiscoverComponents<V(!new)>(f: Forest<V>, stack: seq<V>, heads: seq<V>, components: seq<set<V>>, x: V,
                                    time: int)
    requires MayGrow(f, stack, x, time) && StackIsBranch(f, stack) && ComponentsAreBlocks(f, heads, components)
    requires forall h :: h in heads ==> h in f.above && h !in stack
    ensures ComponentsAreBlocks(AddNode(f, stack, x, time), heads, components)
  {
    forall h | h in heads ensures SameBelow(f, AddNode(f, stack, x, time), h) {
      DiscoverSameBelow(f, stack, x, time, h);
    }
    ComponentsKept(f, AddNode(f, stack, x, time), heads, components);
  }

  lemma DiscoverOwner<V(!new)>(f: Forest<V>, stack: seq<V>, x: V, time: int, e: (V, V))
    requires MayGrow(f, stack, x, time) && e.0 in f.above && e.1 in f.above
    ensures IsTreeEdge(AddNode(f, stack, x, time), e) <==> IsTreeEdge(f, e)
    ensures IsBackEdge(AddNode(f, stack, x, time), e) <==> IsBackEdge(f, e)
    ensures Owner(AddNode(f, stack, x, time), e) == Owner(f, e)
  {
    AddNodeAbove(f, stack, x, time, e.1, e.0);
  }

  lemma DiscoverOpen<V(!new)>(f: Forest<V>, stack: seq<V>, heads: seq<V>, x: V, time: int, y: V)
    requires MayGrow(f, stack, x, time) && StackIsBranch(f, stack)
    requires forall h :: h in heads ==> h in f.above && h !in stack
    ensures y in f.above ==> (Open(AddNode(f, stack, x, time), heads, y) <==> Open(f, heads, y))
    ensures Open(AddNode(f, stack, x, time), heads, x) <==> stack != []
  {
    AddNodeBelow(f, stack, x, time);
  }

  lemma EdgeEndsAreKnown<V(!new)>(f: Forest<V>, heads: seq<V>, e: (V, V))
    requires IsTreeShape(f) && EdgeIsOpen(f, heads, e)
    ensures e.0 in f.above && e.1 in f.above && Owner(f, e) in f.above
  {
    if IsTreeEdge(f, e) { ParentIsKnown(f, e.1); }
  }

  lemma DiscoverEdges<V(!new)>(f: Forest<V>, stack: seq<V>, heads: seq<V>, edges: seq<(V, V)>, x: V, time: int)
    requires MayGrow(f, stack, x, time) && StackIsBranch(f, stack) && EdgesAreOpen(f, heads, edges)
    requires forall h :: h in heads ==> h in f.above && h !in stack
    ensures EdgesAreOpen(AddNode(f, stack, x, time), heads, edges + if stack == [] then [] else [(Last(stack), x)])
  {
    var f' := AddNode(f, stack, x, time);
    var edges' := edges + if stack == [] then [] else [(Last(stack), x)];
    forall e | e in edges' ensures EdgeIsOpen(f', heads, e) {
      if e in edges {
        EdgeEndsAreKnown(f, heads, e);
        DiscoverOwner(f, stack, x, time, e);
        DiscoverOpen(f, stack, heads, x, time, Owner(f, e));
      } else {
        DiscoverOpen(f, stack, heads, x, time, x);
      }
    }
    forall y | Open(f', heads, y) ensures y in f'.parent && (f'.parent[y], y) in edges' {
      DiscoverOpen(f, stack, heads, x, time, y);
      if y == x { assert edges'[|edges|] == (Last(stack), x); }
    }
  }

  lemma DiscoverOldMark<V(!new)>(f: Forest<V>, stack: seq<V>, heads: seq<V>, edges: seq<(V, V)>, x: V, time: int,
                                 i: int, m: int)
    requires MayGrow(f, stack, x, time) && StackIsBranch(f, stack) && 1 <= i < |stack|
    requires forall k :: 0 <= k < |edges| ==> EdgeIsOpen(f, heads, edges[k])
    requires MarkIsRight(f, edges, stack[i - 1], stack[i], m)
    ensures MarkIsRight(AddNode(f, stack, x, time), edges + [(Last(stack), x)], stack[i - 1], stack[i], m)
  {
    var f', edges' := AddNode(f, stack, x, time), edges + [(Last(stack), x)];
    AddNodeBelow(f, stack, x, time);
    forall k | 0 <= k < |edges'| ensures m <= k <==> Above(f', stack[i], Owner(f', edges'[k])) {
      if k < |edges| {
        EdgeEndsAreKnown(f, heads, edges[k]);
        DiscoverOwner(f, stack, x, time, edges[k]);
      }
    }
    assert x != stack[i];
  }

  lemma DiscoverNewMark<V(!new)>(f: Forest<V>, stack: seq<V>, heads: seq<V>, edges: seq<(V, V)>, x: V, time: int)
    requires MayGrow(f, stack, x, time) && stack != []
    requires forall k :: 0 <= k < |edges| ==> EdgeIsOpen(f, heads, edges[k])
    ensures MarkIsRight(AddNode(f, stack, x, time), edges + [(Last(stack), x)], Last(stack), x, |edges|)
  {
    var f', edges' := AddNode(f, stack, x, time), edges + [(Last(stack), x)];
    forall k | 0 <= k < |edges'| ensures |edges| <= k <==> Above(f', x, Owner(f', edges'[k])) {
      if k < |edges| {
        EdgeEndsAreKnown(f, heads, edges[k]);
        DiscoverOwner(f, stack, x, time, edges[k]);
        AddNodeAbove(f, stack, x, time, x, Owner(f, edges[k]));
      } else {
        AddNodeAbove(f, stack, x, time, x, x);
      }
    }
    forall k | 0 <= k < |edges| ensures edges[k] != (Last(stack), x) {
      EdgeEndsAreKnown(f, heads, edges[k]);
    }
  }

  lemma DiscoverMarks<V(!new)>(f: Forest<V>, stack: seq<V>, heads: seq<V>, edges: seq<(V, V)>, marks: seq<int>, x: V,
                               time: int)
    requires MayGrow(f, stack, x, time) && StackIsBranch(f, stack) && MarksAreRight(f, stack, edges, marks)
    requires forall k :: 0 <= k < |edges| ==> EdgeIsOpen(f, heads, edges[k])
    ensures stack == [] ==> MarksAreRight(AddNode(f, stack, x, time), [x], edges, [|edges|])
    ensures stack != [] ==>
              MarksAreRight(AddNode(f, stack, x, time), stack + [x], edges + [(Last(stack), x)], marks + [|edges|])
  {
    if stack != [] {
      var f', stack' := AddNode(f, stack, x, time), stack + [x];
      var edges', marks' := edges + [(Last(stack), x)], marks + [|edges|];
      forall i | 1 <= i < |stack'| ensures MarkIsRight(f', edges', stack'[i - 1], stack'[i], marks'[i]) {
        if i < |stack| {
          DiscoverOldMark(f, stack, heads, edges, x, time, i, marks[i]);
        } else {
          DiscoverNewMark(f, stack, heads, edges, x, time);
        }
      }
    }
  }

  // ----- Lowering a low link -----

  ghost function Lower<V(!new)>(f: Forest<V>, y: V, value: int): Forest<V> {
    f.(low := f.low[y := value])
  }

  lemma LowerKeepsForest<V(!new)>(g: Graph<V>, f: Forest<V>, y: V, value: int)
    requires IsForest(g, f) && y in f.above
    ensures IsForest(g, Lower(f, y, value))
  {
    var f' := Lower(f, y, value);
    assert SameKeys(f');
    assert forall a, x :: Above(f', a, x) <==> Above(f, a, x);
  }

  lemma LowerBounds<V(!new)>(g: Graph<V>, f: Forest<V>, stack: seq<V>, rest: map<V, seq<V>>, y: V, value: int)
    requires SameKeys(f) && SameKeys(Lower(f, y, value)) && y in stack && y in f.above && value <= f.low[y]
    requires LowIsSmall(f) && LowBoundsLinks(g, f, rest) && LowFallsOffStack(f, stack)
    ensures LowIsSmall(Lower(f, y, value)) && LowBoundsLinks(g, Lower(f, y, value), rest)
    ensures LowFallsOffStack(Lower(f, y, value), stack)
  {
  }

  lemma LowerIsReached<V(!new)>(g: Graph<V>, f: Forest<V>, y: V, value: int, u: V, w: V)
    requires LowIsReached(g, f) && y in f.low
    requires value != f.low[y] ==> BackLink(g, Lower(f, y, value), y, u, w)
    ensures LowIsReached(g, Lower(f, y, value))
  {
    var f' := Lower(f, y, value);
    forall v | v in f'.low && v in f'.disc && f'.low[v] != f'.disc[v] ensures exists a, b :: BackLink(g, f', v, a, b) {
      if v != y || value == f.low[y] {
        var a, b :| BackLink(g, f, v, a, b);
        assert BackLink(g, f', v, a, b);
      }
    }
  }

  lemma LowerKeepsHeads<V(!new)>(f: Forest<V>, y: V, value: int, v: V)
    requires v != y
    ensures IsHead(Lower(f, y, value), v) <==> IsHead(f, v)
  {
  }

  lemma LowerSameBelow<V(!new)>(f: Forest<V>, y: V, value: int, h: V)
    requires h in f.parent && !Above(f, h, y)
    ensures SameBelow(f, Lower(f, y, value), h)
  {
    var f' := Lower(f, y, value);
    forall v | Above(f, h, v) ensures IsHead(f, v) <==> IsHead(f', v) {
      LowerKeepsHeads(f, y, value, v);
    }
  }

  lemma LowerHeads<V(!new)>(f: Forest<V>, stack: seq<V>, heads: seq<V>, y: V, value: int)
    requires HeadsAreListed(f, stack, heads) && y in stack
    ensures HeadsAreListed(Lower(f, y, value), stack, heads)
  {
    var f' := Lower(f, y, value);
    forall h ensures h in heads <==> h !in stack && IsHead(f', h) {
      if h != y { LowerKeepsHeads(f, y, value, h); }
    }
  }

  lemma LowerComponents<V(!new)>(f: Forest<V>, heads: seq<V>, components: seq<set<V>>, y: V, value: int)
    requires ComponentsAreBlocks(f, heads, components)
    requires forall h :: h in heads ==> h in f.parent && !Above(f, h, y)
    ensures ComponentsAreBlocks(Lower(f, y, value), heads, components)
  {
    forall h | h in heads ensures SameBelow(f, Lower(f, y, value), h) {
      LowerSameBelow(f, y, value, h);
    }
    ComponentsKept(f, Lower(f, y, value), heads, components);
  }

  lemma LowerEdge<V(!new)>(f: Forest<V>, heads: seq<V>, y: V, value: int, e: (V, V))
    requires y in f.low && value <= f.low[y]
    ensures Owner(Lower(f, y, value), e) == Owner(f, e)
    ensures EdgeIsOpen(f, heads, e) ==> EdgeIsOpen(Lower(f, y, value), heads, e)
  {
    var f' := Lower(f, y, value);
    assert forall a, x :: Above(f', a, x) <==> Above(f, a, x);
  }

  lemma LowerEdges<V(!new)>(f: Forest<V>, heads: seq<V>, edges: seq<(V, V)>, y: V, value: int)
    requires y in f.low && value <= f.low[y] && EdgesAreOpen(f, heads, edges)
    ensures EdgesAreOpen(Lower(f, y, value), heads, edges)
  {
    var f' := Lower(f, y, value);
    forall e | e in edges ensures EdgeIsOpen(f', heads, e) {
      LowerEdge(f, heads, y, value, e);
    }
    assert forall a, x :: Above(f', a, x) <==> Above(f, a, x);
    forall x | Open(f', heads, x) ensures x in f'.parent && (f'.parent[x], x) in edges {
      assert Open(f, heads, x);
    }
  }

  lemma LowerMarks<V(!new)>(f: Forest<V>, stack: seq<V>, edges: seq<(V, V)>, marks: seq<int>, y: V, value: int)
    requires MarksAreRight(f, stack, edges, marks)
    ensures MarksAreRight(Lower(f, y, value), stack, edges, marks)
  {
    var f' := Lower(f, y, value);
    forall i | 1 <= i < |stack| ensures MarkIsRight(f', edges, stack[i - 1], stack[i], marks[i]) {
      assert MarkIsRight(f, edges, stack[i - 1], stack[i], marks[i]);
      forall k | 0 <= k < |edges| ensures marks[i] <= k <==> Above(f', stack[i], Owner(f', edges[k])) {
        assert Owner(f', edges[k]) == Owner(f, edges[k]);
      }
    }
  }

  // ----- Stacking a back edge -----

  lemma BackEdgeEdges<V(!new)>(f: Forest<V>, heads: seq<V>, edges: seq<(V, V)>, e: (V, V))
    requires EdgesAreOpen(f, heads, edges) && EdgeIsOpen(f, heads, e)
    ensures EdgesAreOpen(f, heads, edges + [e])
  {
  }

  lemma BackEdgeMark<V(!new)>(f: Forest<V>, edges: seq<(V, V)>, e: (V, V), p: V, x: V, m: int)
    requires MarkIsRight(f, edges, p, x, m) && Above(f, x, Owner(f, e)) && e != (p, x)
    ensures MarkIsRight(f, edges + [e], p, x, m)
  {
  }

  lemma StackedIsAboveTop<V(!new)>(f: Forest<V>, stack: seq<V>, t: V)
    requires StackIsBranch(f, stack) && t in stack
    ensures Above(f, t, Last(stack))
  {
  }

  lemma BackEdgeMarks<V(!new)>(f: Forest<V>, stack: seq<V>, edges: seq<(V, V)>, marks: seq<int>, w: V)
    requires IsTreeShape(f) && StackIsBranch(f, stack) && stack != [] && MarksAreRight(f, stack, edges, marks)
    requires Above(f, w, Last(stack)) && w != Last(stack)
    ensures MarksAreRight(f, stack, edges + [(Last(stack), w)], marks)
  {
    var e := (Last(stack), w);
    assert Owner(f, e) == Last(stack);
    forall i | 1 <= i < |stack| ensures MarkIsRight(f, edges + [e], stack[i - 1], stack[i], marks[i]) {
      StackedIsAboveTop(f, stack, stack[i]);
      assert stack[i - 1] in f.depth && stack[|stack| - 1] in f.depth;
      BackEdgeMark(f, edges, e, stack[i - 1], stack[i], marks[i]);
    }
  }

  lemma BackEdgeIsOpen<V(!new)>(f: Forest<V>, stack: seq<V>, heads: seq<V>, w: V)
    requires IsTreeShape(f) && StackIsBranch(f, stack) && stack != [] && forall h :: h in heads ==> h !in stack
    requires Above(f, w, Last(stack)) && w != Last(stack) && f.low[Last(stack)] <= f.disc[w]
    ensures EdgeIsOpen(f, heads, (Last(stack), w))
  {
    assert stack[|stack| - 1] in f.depth;
    assert Owner(f, (Last(stack), w)) == Last(stack);
  }

  /** A neighbour with a smaller number than the top of the stack is above the top. */
  lemma EarlierIsAbove<V(!new)>(g: Graph<V>, f: Forest<V>, stack: seq<V>, rest: map<V, seq<V>>, w: V)
    requires IsTreeShape(f) && StackIsBranch(f, stack) && stack != [] && Undirected(g)
    requires RestIsPending(g, f, stack, rest) && YieldedAreComparable(g, f, rest)
    requires Last(stack) in g && w in g[Last(stack)] && w in f.above && f.disc[w] < f.disc[Last(stack)]
    ensures Above(f, w, Last(stack))
  {
    if w !in stack {
      assert Yielded(g, rest, w, Last(stack));
    }
  }

  // ----- Yielding a neighbour -----

  lemma YieldedBefore<V(!new)>(g: Graph<V>, rest: map<V, seq<V>>, c: V, u: V, w: V)
    requires c in rest && rest[c] != [] && Yielded(g, rest[c := rest[c][1..]], u, w)
    ensures Yielded(g, rest, u, w) || (u == c && w == rest[c][0])
  {
    if u == c { assert rest[c] == [rest[c][0]] + rest[c][1..]; }
  }

  lemma YieldPending<V(!new)>(g: Graph<V>, f: Forest<V>, stack: seq<V>, rest: map<V, seq<V>>, c: V)
    requires RestIsPending(g, f, stack, rest) && c in stack && c in rest && rest[c] != []
    ensures RestIsPending(g, f, stack, rest[c := rest[c][1..]])
  {
    assert rest[c := rest[c][1..]].Keys == rest.Keys;
  }

  lemma YieldComparable<V(!new)>(g: Graph<V>, f: Forest<V>, rest: map<V, seq<V>>, c: V)
    requires YieldedAreComparable(g, f, rest) && c in rest && rest[c] != []
    requires rest[c][0] in f.above && (Above(f, c, rest[c][0]) || Above(f, rest[c][0], c))
    ensures YieldedAreComparable(g, f, rest[c := rest[c][1..]])
  {
    var rest' := rest[c := rest[c][1..]];
    forall u, w | Yielded(g, rest', u, w) ensures w in f.above && (Above(f, u, w) || Above(f, w, u)) {
      YieldedBefore(g, rest, c, u, w);
    }
  }

  lemma YieldLowBounds<V(!new)>(g: Graph<V>, f: Forest<V>, rest: map<V, seq<V>>, c: V)
    requires SameKeys(f) && LowBoundsLinks(g, f, rest) && c in rest && rest[c] != []
    requires c in f.above && rest[c][0] in f.above
    requires f.depth[c] == 0 || rest[c][0] != f.parent[c] ==> f.low[c] <= f.disc[rest[c][0]]
    ensures LowBoundsLinks(g, f, rest[c := rest[c][1..]])
  {
    var rest' := rest[c := rest[c][1..]];
    forall u, w | Yielded(g, rest', u, w) && u in f.above && w in f.above && (f.depth[u] == 0 || w != f.parent[u])
      ensures f.low[u] <= f.disc[w] {
      YieldedBefore(g, rest, c, u, w);
    }
  }

  // ----- Leaving a node -----

  lemma ProperlyAbove<V(!new)>(f: Forest<V>, v: V, x: V)
    requires IsTreeShape(f) && Above(f, v, x) && v != x && x in f.above
    ensures f.depth[x] > 0 && Above(f, v, f.parent[x])
  {
    assert Above(f, f.parent[x], x);
  }

  lemma PopMembers<V(!new)>(f: Forest<V>, stack: seq<V>, v: V)
    requires StackIsBranch(f, stack) && stack != []
    ensures v in stack[..|stack| - 1] <==> v in stack && v != Last(stack)
  {
    var n := |stack| - 1;
    assert stack == stack[..n] + [stack[n]];
    assert stack[n] in f.depth && stack[n] !in stack[..n];
  }

  lemma AboveOnlyViaParent<V(!new)>(f: Forest<V>, p: V, x: V, v: V)
    requires IsTreeShape(f) && x in f.above && f.depth[x] > 0 && f.parent[x] == p
    ensures Above(f, v, p) <==> Above(f, v, x) && v != x
  {
    assert Above(f, p, x);
    if Above(f, v, x) && v != x { ProperlyAbove(f, v, x); }
  }

  lemma PopStack<V(!new)>(f: Forest<V>, stack: seq<V>)
    requires IsTreeShape(f) && StackIsBranch(f, stack) && stack != []
    ensures StackIsBranch(f, stack[..|stack| - 1])
  {
    var n := |stack| - 1;
    if n > 0 {
      assert f.parent[stack[n]] == stack[n - 1] && f.depth[stack[n]] == n;
      forall v ensures v in stack[..n] <==> Above(f, v, stack[n - 1]) {
        PopMembers(f, stack, v);
        AboveOnlyViaParent(f, stack[n - 1], stack[n], v);
      }
    }
  }

  lemma PopPending<V(!new)>(g: Graph<V>, f: Forest<V>, stack: seq<V>, rest: map<V, seq<V>>)
    requires RestIsPending(g, f, stack, rest) && stack != [] && Last(stack) in rest && rest[Last(stack)] == []
    requires forall v :: v in stack[..|stack| - 1] <==> v in stack && v != Last(stack)
    ensures RestIsPending(g, f, stack[..|stack| - 1], rest)
  {
  }

  lemma PopRecent<V(!new)>(f: Forest<V>, stack: seq<V>, clock: int)
    requires RecentIsBelow(f, stack, clock) && stack != []
    ensures RecentIsBelow(f, stack[..|stack| - 1], clock)
  {
    assert stack == stack[..|stack| - 1] + [Last(stack)];
  }

  lemma PopLowFalls<V(!new)>(f: Forest<V>, stack: seq<V>)
    requires SameKeys(f) && LowFallsOffStack(f, stack) && stack != [] && Last(stack) in f.above
    requires f.depth[Last(stack)] != 0 && f.parent[Last(stack)] in f.above
      ==> f.low[f.parent[Last(stack)]] <= f.low[Last(stack)]
    requires forall v :: v in stack[..|stack| - 1] <==> v in stack && v != Last(stack)
    ensures LowFallsOffStack(f, stack[..|stack| - 1])
  {
  }

  lemma PopHeads<V(!new)>(f: Forest<V>, stack: seq<V>, heads: seq<V>)
    requires HeadsAreListed(f, stack, heads) && stack != []
    requires forall v :: v in stack[..|stack| - 1] <==> v in stack && v != Last(stack)
    ensures !IsHead(f, Last(stack)) ==> HeadsAreListed(f, stack[..|stack| - 1], heads)
    ensures IsHead(f, Last(stack)) ==> HeadsAreListed(f, stack[..|stack| - 1], heads + [Last(stack)])
  {
    assert Last(stack) in stack;
    if IsHead(f, Last(stack)) {
      var heads' := heads + [Last(stack)];
      forall h ensures h in heads' <==> h !in stack[..|stack| - 1] && IsHead(f, h) {
        assert h in heads' <==> h in heads || h == Last(stack);
      }
      forall i, j | 0 <= i < j < |heads'| ensures heads'[i] != heads'[j] {
        assert heads[i] in heads;
      }
    }
  }

  lemma PopComponents<V(!new)>(f: Forest<V>, heads: seq<V>, components: seq<set<V>>, h: V)
    requires ComponentsAreBlocks(f, heads, components) && h in f.parent
    ensures ComponentsAreBlocks(f, heads + [h], components + [Block(f, h)])
  {
  }

  lemma PopMarks<V(!new)>(f: Forest<V>, stack: seq<V>, edges: seq<(V, V)>, marks: seq<int>)
    requires MarksAreRight(f, stack, edges, marks) && stack != []
    ensures MarksAreRight(f, stack[..|stack| - 1], edges, marks[..|stack| - 1])
  {
  }

  // ----- Closing a component -----

  function Ends<V>(edges: seq<(V, V)>): set<V> {
    if edges == [] then {} else {edges[0].0, edges[0].1} + Ends(edges[1..])
  }

  lemma {:induction false} EndsMembers<V>(edges: seq<(V, V)>, v: V)
    ensures v in Ends(edges) <==> exists k :: 0 <= k < |edges| && (v == edges[k].0 || v == edges[k].1)
  {
    if edges != [] {
      EndsMembers(edges[1..], v);
      if k: int :| 0 <= k < |edges| && (v == edges[k].0 || v == edges[k].1) {
        if k > 0 { assert edges[1..][k - 1] == edges[k]; }
      }
      if k: int :| 0 <= k < |edges[1..]| && (v == edges[1..][k].0 || v == edges[1..][k].1) {
        assert edges[k + 1] == edges[1..][k];
      }
    }
  }

  lemma OffStackBelowTop<V(!new)>(f: Forest<V>, stack: seq<V>, v: V)
    requires IsTreeShape(f) && StackIsBranch(f, stack) && stack != []
    requires Above(f, Last(stack), v) && v != Last(stack)
    ensures v !in stack
  {
  }

  /** An open node below the top of the stack has no head between it and the top. */
  lemma OpenIsMember<V(!new)>(f: Forest<V>, stack: seq<V>, heads: seq<V>, o: V)
    requires IsTreeShape(f) && StackIsBranch(f, stack) && stack != [] && HeadsAreListed(f, stack, heads)
    requires Open(f, heads, o) && Above(f, Last(stack), o)
    ensures Member(f, Last(stack), o)
  {
    forall v | Above(f, v, o) && Above(f, Last(stack), v) && v != Last(stack) ensures !IsHead(f, v) {
      OffStackBelowTop(f, stack, v);
    }
  }

  lemma MemberIsOpen<V(!new)>(f: Forest<V>, stack: seq<V>, heads: seq<V>, x: V)
    requires IsTreeShape(f) && StackIsBranch(f, stack) && |stack| > 1 && HeadsAreListed(f, stack, heads)
    requires Member(f, Last(stack), x)
    ensures Open(f, heads, x)
  {
    assert stack[|stack| - 1] in f.depth;
    forall h | h in heads ensures !Above(f, h, x) {
      if Above(f, h, x) { HeadAboveMember(f, Last(stack), h, x); }
    }
  }

  lemma HeadAboveMember<V(!new)>(f: Forest<V>, top: V, h: V, x: V)
    requires IsTreeShape(f) && Member(f, top, x) && Above(f, h, x) && IsHead(f, h)
    ensures Above(f, h, top)
  {
  }

  lemma {:induction false} LowFallsToTop<V(!new)>(f: Forest<V>, stack: seq<V>, x: V)
    requires IsTreeShape(f) && StackIsBranch(f, stack) && stack != [] && LowFallsOffStack(f, stack)
    requires Above(f, Last(stack), x) && x in f.above
    ensures Last(stack) in f.low && f.low[Last(stack)] <= f.low[x]
    decreases if x in f.depth then f.depth[x] else 0
  {
    if x != Last(stack) {
      OffStackBelowTop(f, stack, x);
      ProperlyAbove(f, Last(stack), x);
      ParentIsKnown(f, x);
      LowFallsToTop(f, stack, f.parent[x]);
    }
  }

  lemma EdgeJoinsBlock<V(!new)>(f: Forest<V>, stack: seq<V>, heads: seq<V>, e: (V, V))
    requires IsTreeShape(f) && StackIsBranch(f, stack) && stack != [] && HeadsAreListed(f, stack, heads)
    requires LowFallsOffStack(f, stack) && IsHead(f, Last(stack))
    requires EdgeIsOpen(f, heads, e) && Above(f, Last(stack), Owner(f, e))
    ensures e.0 in Block(f, Last(stack)) && e.1 in Block(f, Last(stack))
  {
    var top := Last(stack);
    OpenIsMember(f, stack, heads, Owner(f, e));
    if IsTreeEdge(f, e) {
      if e.1 != top {
        ProperlyAbove(f, top, e.1);
        MemberAbove(f, top, e.0, e.1);
      }
    } else {
      LowFallsToTop(f, stack, e.0);
      GateFromBound(f, top, e.0, e.1);
      if Above(f, top, e.1) { MemberAbove(f, top, e.1, e.0); }
    }
  }

  lemma BlockIsCollected<V(!new)>(f: Forest<V>, stack: seq<V>, heads: seq<V>, edges: seq<(V, V)>, m: int, x: V)
    requires IsTreeShape(f) && StackIsBranch(f, stack) && |stack| > 1 && HeadsAreListed(f, stack, heads)
    requires EdgesAreOpen(f, heads, edges) && MarkIsRight(f, edges, stack[|stack| - 2], Last(stack), m)
    requires Member(f, Last(stack), x)
    ensures x in Ends(edges[m..])
  {
    MemberIsOpen(f, stack, heads, x);
    var k :| 0 <= k < |edges| && edges[k] == (f.parent[x], x);
    assert Owner(f, edges[k]) == x;
    assert edges[m..][k - m] == edges[k];
    EndsMembers(edges[m..], x);
  }

  /** The edges popped for a head are those of its block. */
  lemma CollectedIsBlock<V(!new)>(f: Forest<V>, stack: seq<V>, heads: seq<V>, edges: seq<(V, V)>, m: int)
    requires IsTreeShape(f) && StackIsBranch(f, stack) && |stack| > 1 && HeadsAreListed(f, stack, heads)
    requires LowFallsOffStack(f, stack) && IsHead(f, Last(stack))
    requires EdgesAreOpen(f, heads, edges) && MarkIsRight(f, edges, stack[|stack| - 2], Last(stack), m)
    ensures Ends(edges[m..]) == Block(f, Last(stack))
  {
    var popped := edges[m..];
    forall v | v in Ends(popped) ensures v in Block(f, Last(stack)) {
      EndsMembers(popped, v);
      var k :| 0 <= k < |popped| && (v == popped[k].0 || v == popped[k].1);
      assert popped[k] == edges[m + k];
      EdgeJoinsBlock(f, stack, heads, edges[m + k]);
    }
    forall v | v in Block(f, Last(stack)) ensures v in Ends(popped) {
      if Member(f, Last(stack), v) {
        BlockIsCollected(f, stack, heads, edges, m, v);
      } else {
        assert popped[0] == (f.parent[Last(stack)], Last(stack));
        EndsMembers(popped, v);
      }
    }
  }

  lemma CloseEdge<V(!new)>(f: Forest<V>, heads: seq<V>, h: V, e: (V, V))
    requires EdgeIsOpen(f, heads, e) && !Above(f, h, Owner(f, e))
    ensures EdgeIsOpen(f, heads + [h], e)
  {
  }

  lemma CloseEdges<V(!new)>(f: Forest<V>, heads: seq<V>, edges: seq<(V, V)>, p: V, x: V, m: int)
    requires EdgesAreOpen(f, heads, edges) && MarkIsRight(f, edges, p, x, m)
    ensures EdgesAreOpen(f, heads + [x], edges[..m])
  {
    forall e | e in edges[..m] ensures EdgeIsOpen(f, heads + [x], e) {
      var k :| 0 <= k < m && edges[k] == e;
      CloseEdge(f, heads, x, e);
    }
    forall y | Open(f, heads + [x], y) ensures y in f.parent && (f.parent[y], y) in edges[..m] {
      assert (heads + [x])[|heads|] == x;
      assert Open(f, heads, y) by {
        forall h | h in heads ensures !Above(f, h, y) { assert h in heads + [x]; }
      }
      var k :| 0 <= k < |edges| && edges[k] == (f.parent[y], y);
      assert Owner(f, edges[k]) == y;
    }
  }

  lemma CloseMark<V(!new)>(f: Forest<V>, edges: seq<(V, V)>, p: V, x: V, m: int, q: V, y: V, n: int)
    requires MarkIsRight(f, edges, p, x, m) && MarkIsRight(f, edges, q, y, n) && n < m
    ensures MarkIsRight(f, edges[..m], q, y, n)
  {
  }

  lemma CloseMarks<V(!new)>(f: Forest<V>, stack: seq<V>, edges: seq<(V, V)>, marks: seq<int>)
    requires IsTreeShape(f) && StackIsBranch(f, stack) && |stack| > 1 && MarksAreRight(f, stack, edges, marks)
    ensures var n := |stack| - 1;
            0 <= marks[n] <= |edges| && MarksAreRight(f, stack[..n], edges[..marks[n]], marks[..n])
  {
    var n := |stack| - 1;
    assert MarkIsRight(f, edges, stack[n - 1], stack[n], marks[n]);
    forall i | 1 <= i < n ensures MarkIsRight(f, edges[..marks[n]], stack[i - 1], stack[i], marks[i]) {
      assert marks[i] < marks[n] by { LowerMarkIsEarlier(f, stack, edges, marks, i); }
      CloseMark(f, edges, stack[n - 1], stack[n], marks[n], stack[i - 1], stack[i], marks[i]);
    }
  }

  lemma LowerMarkIsEarlier<V(!new)>(f: Forest<V>, stack: seq<V>, edges: seq<(V, V)>, marks: seq<int>, i: int)
    requires IsTreeShape(f) && StackIsBranch(f, stack) && MarksAreRight(f, stack, edges, marks) && 1 <= i < |stack| - 1
    ensures marks[i] < marks[|stack| - 1]
  {
    var n := |stack| - 1;
    assert MarkIsRight(f, edges, stack[n - 1], stack[n], marks[n]);
    assert MarkIsRight(f, edges, stack[i - 1], stack[i], marks[i]);
    assert stack[i] in f.depth && stack[n] in f.depth && f.parent[stack[i]] == stack[i - 1];
    assert IsTreeEdge(f, edges[marks[i]]) && Owner(f, edges[marks[i]]) == stack[i];
    assert !Above(f, stack[n], stack[i]);
  }
}

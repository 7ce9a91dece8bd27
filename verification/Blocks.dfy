/** Blocks (biconnected components) of an undirected graph, read off a depth-first forest with low
    links. Nothing here mentions how the forest was built. */
module Blocks {
  import opened Graphs

  type Graph<!V> = map<V, set<V>>

  ghost predicate Undirected<V(!new)>(g: Graph<V>) {
    forall u, v :: u in g && v in g[u] ==> v in g && u in g[v] && u != v
  }

  /** Rooted trees with discovery numbers and low links; above[x] holds x and its ancestors. */
  datatype Forest<!V> = Forest(
    above: map<V, set<V>>, depth: map<V, int>, parent: map<V, V>, disc: map<V, int>, low: map<V, int>)

  /** y is x or an ancestor of x. */
  ghost predicate Above<V>(f: Forest<V>, y: V, x: V) {
    x in f.above && y in f.above[x]
  }

  ghost predicate IsRoot<V>(f: Forest<V>, x: V)
    requires x in f.depth
  {
    f.depth[x] == 0
  }

  ghost function Parent<V>(f: Forest<V>, x: V): V
    requires x in f.parent
  {
    f.parent[x]
  }

  ghost predicate SameKeys<V(!new)>(f: Forest<V>) {
    && f.depth.Keys == f.above.Keys && f.parent.Keys == f.above.Keys
    && f.disc.Keys == f.above.Keys && f.low.Keys == f.above.Keys
  }

  ghost predicate ParentsAreAbove<V(!new)>(f: Forest<V>)
    requires SameKeys(f)
  {
    && (forall x :: x in f.above ==> Above(f, x, x) && f.depth[x] >= 0)
    && (forall x {:trigger f.parent[x]} :: x in f.above && f.depth[x] > 0 ==>
          Above(f, f.parent[x], x) && f.parent[x] in f.depth && f.depth[f.parent[x]] == f.depth[x] - 1)
  }

  ghost predicate AboveIsEarlier<V(!new)>(f: Forest<V>)
    requires SameKeys(f)
  {
    forall x, y {:trigger Above(f, y, x)} :: Above(f, y, x) ==>
      y in f.above && (y != x ==> f.depth[y] < f.depth[x] && f.disc[y] < f.disc[x])
  }

  ghost predicate AboveIsTransitive<V(!new)>(f: Forest<V>) {
    forall x, y, z {:trigger Above(f, z, y), Above(f, y, x)} :: Above(f, z, y) && Above(f, y, x) ==> Above(f, z, x)
  }

  ghost predicate AboveIsLinear<V(!new)>(f: Forest<V>)
    requires SameKeys(f) && AboveIsEarlier(f)
  {
    forall x, a, b {:trigger Above(f, a, x), Above(f, b, x)} ::
      Above(f, a, x) && Above(f, b, x) && f.depth[a] <= f.depth[b] ==>
        Above(f, a, b) && (f.depth[a] == f.depth[b] ==> a == b)
  }

  ghost predicate IsTreeShape<V(!new)>(f: Forest<V>) {
    && SameKeys(f) && ParentsAreAbove(f) && AboveIsEarlier(f) && AboveIsTransitive(f) && AboveIsLinear(f)
  }

  ghost predicate LowFalls<V(!new)>(f: Forest<V>)
    requires IsTreeShape(f)
  {
    forall x :: x in f.above && !IsRoot(f, x) && Parent(f, x) in f.low ==> f.low[Parent(f, x)] <= f.low[x]
  }

  ghost predicate BackLink<V(!new)>(g: Graph<V>, f: Forest<V>, y: V, u: V, w: V) {
    Above(f, y, u) && u in g && w in g[u] && Above(f, w, u) && w in f.disc && y in f.low && f.low[y] == f.disc[w]
  }

  ghost predicate TreeEdges<V(!new)>(g: Graph<V>, f: Forest<V>)
    requires IsTreeShape(f)
  {
    forall x :: x in f.above && !IsRoot(f, x) ==> Parent(f, x) in g && x in g[Parent(f, x)]
  }

  ghost predicate EdgesAreVertical<V(!new)>(g: Graph<V>, f: Forest<V>) {
    forall u, v :: u in g && v in g[u] ==> Above(f, u, v) || Above(f, v, u)
  }

  ghost predicate LowBoundsEdges<V(!new)>(g: Graph<V>, f: Forest<V>)
    requires SameKeys(f) && f.above.Keys == g.Keys
  {
    forall x, w :: x in g && w in g[x] && w in f.disc && (IsRoot(f, x) || w != Parent(f, x)) ==> f.low[x] <= f.disc[w]
  }

  ghost predicate LowIsReached<V(!new)>(g: Graph<V>, f: Forest<V>) {
    forall y :: y in f.low && y in f.disc && f.low[y] != f.disc[y] ==> exists u, w :: BackLink(g, f, y, u, w)
  }

  /** A depth-first forest of g: edges join a node to an ancestor, and the low link of a node is the
      least discovery number that its subtree touches. */
  ghost predicate IsDfsForest<V(!new)>(g: Graph<V>, f: Forest<V>) {
    && f.above.Keys == g.Keys && IsTreeShape(f) && TreeEdges(g, f) && LowFalls(f)
    && EdgesAreVertical(g, f) && LowBoundsEdges(g, f) && LowIsReached(g, f)
  }

  /** Nothing below x reaches above x's parent. */
  ghost predicate IsHead<V>(f: Forest<V>, x: V) {
    && x in f.above && x in f.depth && !IsRoot(f, x) && x in f.parent
    && x in f.low && Parent(f, x) in f.disc && f.low[x] >= f.disc[Parent(f, x)]
  }

  /** x hangs below h with no further head in between. */
  ghost predicate Member<V(!new)>(f: Forest<V>, h: V, x: V) {
    && Above(f, h, x)
    && forall v {:trigger Above(f, v, x)} :: Above(f, v, x) && Above(f, h, v) && v != h ==> !IsHead(f, v)
  }

  ghost function Block<V(!new)>(f: Forest<V>, h: V): set<V>
    requires h in f.parent
  {
    (set x | x in f.above && Member(f, h, x)) + {Parent(f, h)}
  }

  // ----- Trees -----

  lemma {:induction false} LowFallsUpwards<V(!new)>(f: Forest<V>, y: V, x: V)
    requires IsTreeShape(f) && LowFalls(f) && Above(f, y, x)
    ensures y in f.low && f.low[y] <= f.low[x]
    decreases f.depth[x]
  {
    if y != x {
      LowFallsUpwards(f, y, Parent(f, x));
    }
  }

  // ----- Heads are gates -----

  lemma GateFromBound<V(!new)>(f: Forest<V>, h: V, u: V, w: V)
    requires IsTreeShape(f) && IsHead(f, h) && Above(f, h, u) && Above(f, w, u)
    requires w in f.disc && f.low[h] <= f.disc[w]
    ensures Above(f, h, w) || w == Parent(f, h)
  {
  }

  /** Edges leaving a head's subtree end at the head's parent. */
  lemma HeadSeparates<V(!new)>(g: Graph<V>, f: Forest<V>, h: V, u: V, w: V)
    requires IsDfsForest(g, f) && IsHead(f, h) && Above(f, h, u) && w in g[u]
    ensures Above(f, h, w) || w == Parent(f, h)
  {
    if !Above(f, u, w) && (IsRoot(f, u) || w != Parent(f, u)) {
      LowFallsUpwards(f, h, u);
      GateFromBound(f, h, u, w);
    }
  }

  // ----- Every node but a root has one head -----

  lemma ChildrenOfRootsAreHeads<V(!new)>(g: Graph<V>, f: Forest<V>, c: V)
    requires IsDfsForest(g, f) && c in g && f.depth[c] == 1
    ensures IsHead(f, c)
  {
    if f.low[c] != f.disc[c] {
      var u, w :| BackLink(g, f, c, u, w);
      RootIsEarliest(f, Parent(f, c), c, u, w);
    }
  }

  lemma RootIsEarliest<V(!new)>(f: Forest<V>, r: V, c: V, u: V, w: V)
    requires IsTreeShape(f) && Above(f, r, c) && Above(f, c, u) && Above(f, w, u) && r in f.above && IsRoot(f, r)
    ensures w in f.disc && f.disc[r] <= f.disc[w]
  {
  }

  lemma NothingBetweenParent<V(!new)>(f: Forest<V>, y: V, x: V, v: V)
    requires IsTreeShape(f) && Above(f, y, x) && Above(f, v, x) && y in f.above && !IsRoot(f, y)
    requires Above(f, Parent(f, y), v) && v != Parent(f, y)
    ensures Above(f, y, v)
  {
  }

  lemma {:induction false} LastHead<V(!new)>(g: Graph<V>, f: Forest<V>, x: V, y: V) returns (h: V)
    requires IsDfsForest(g, f) && Above(f, y, x) && y in f.above && !IsRoot(f, y)
    requires forall v :: Above(f, v, x) && Above(f, y, v) && v != y ==> !IsHead(f, v)
    ensures IsHead(f, h) && Member(f, h, x)
    decreases f.depth[y]
  {
    if IsHead(f, y) {
      h := y;
    } else {
      var p := Parent(f, y);
      if f.depth[y] == 1 { ChildrenOfRootsAreHeads(g, f, y); }
      forall v | Above(f, v, x) && Above(f, p, v) && v != p ensures !IsHead(f, v) {
        NothingBetweenParent(f, y, x, v);
      }
      h := LastHead(g, f, x, p);
    }
  }

  lemma HeadExists<V(!new)>(g: Graph<V>, f: Forest<V>, x: V) returns (h: V)
    requires IsDfsForest(g, f) && x in g && !IsRoot(f, x)
    ensures IsHead(f, h) && Member(f, h, x)
  {
    h := LastHead(g, f, x, x);
  }

  lemma HeadIsUnique<V(!new)>(f: Forest<V>, h: V, k: V, x: V)
    requires IsTreeShape(f) && IsHead(f, h) && IsHead(f, k) && Member(f, h, x) && Member(f, k, x)
    ensures h == k
  {
  }

  lemma MemberAbove<V(!new)>(f: Forest<V>, h: V, y: V, x: V)
    requires IsTreeShape(f) && Member(f, h, x) && Above(f, y, x) && Above(f, h, y)
    ensures Member(f, h, y)
  {
  }

  // ----- Every edge lies in a block -----

  /** The upper end of an edge belongs to the block of its lower end. */
  lemma UpperEndInBlock<V(!new)>(g: Graph<V>, f: Forest<V>, h: V, u: V, v: V)
    requires IsDfsForest(g, f) && IsHead(f, h) && Member(f, h, v)
    requires v in g && u in g[v] && Above(f, u, v)
    ensures u in Block(f, h)
  {
    HeadSeparates(g, f, h, v, u);
    if Above(f, h, u) { MemberAbove(f, h, u, v); }
  }

  lemma LowerEndHead<V(!new)>(g: Graph<V>, f: Forest<V>, u: V, v: V) returns (h: V)
    requires IsDfsForest(g, f) && v in g && u in g[v] && Above(f, u, v) && u != v
    ensures IsHead(f, h) && u in Block(f, h) && v in Block(f, h)
  {
    h := HeadExists(g, f, v);
    UpperEndInBlock(g, f, h, u, v);
  }

  /** The endpoints of every edge are together in some block. */
  lemma EdgeInBlock<V(!new)>(g: Graph<V>, f: Forest<V>, u: V, v: V) returns (h: V)
    requires Undirected(g) && IsDfsForest(g, f) && u in g && v in g[u]
    ensures IsHead(f, h) && u in Block(f, h) && v in Block(f, h)
  {
    if Above(f, u, v) { h := LowerEndHead(g, f, u, v); } else { h := LowerEndHead(g, f, v, u); }
  }

  lemma BlockIsBelowParent<V(!new)>(f: Forest<V>, h: V, x: V)
    requires IsTreeShape(f) && IsHead(f, h) && Member(f, h, x)
    ensures Parent(f, h) in f.disc && f.disc[Parent(f, h)] < f.disc[x]
  {
  }

  /** A node of two blocks hangs below one head and is the other head's parent, or is both parents. */
  lemma SharedNode<V(!new)>(f: Forest<V>, h: V, k: V, x: V)
    requires IsTreeShape(f) && IsHead(f, h) && IsHead(f, k) && h != k
    requires x in Block(f, h) && x in Block(f, k)
    ensures x == Parent(f, h) || x == Parent(f, k)
    ensures x in f.disc && Parent(f, h) in f.disc && Parent(f, k) in f.disc
    ensures f.disc[Parent(f, h)] <= f.disc[x] && f.disc[Parent(f, k)] <= f.disc[x]
    ensures x != Parent(f, h) ==> f.disc[Parent(f, h)] < f.disc[x]
    ensures x != Parent(f, k) ==> f.disc[Parent(f, k)] < f.disc[x]
  {
    if x != Parent(f, h) { BlockIsBelowParent(f, h, x); }
    if x != Parent(f, k) { BlockIsBelowParent(f, k, x); }
    if Member(f, h, x) && Member(f, k, x) { HeadIsUnique(f, h, k, x); }
  }

  /** Two blocks share at most one node. */
  lemma BlocksShareOneNode<V(!new)>(f: Forest<V>, h: V, k: V, x: V, y: V)
    requires IsTreeShape(f) && IsHead(f, h) && IsHead(f, k) && h != k
    requires x in Block(f, h) && x in Block(f, k) && y in Block(f, h) && y in Block(f, k)
    ensures x == y
  {
    SharedNode(f, h, k, x);
    SharedNode(f, h, k, y);
  }

  // ----- Cycles stay inside one block -----

  /** Distinct nodes, each adjacent to the next and the last to the first. */
  ghost predicate IsLoop<V(!new)>(g: Graph<V>, c: seq<V>) {
    && |c| >= 3
    && (forall i :: 0 <= i < |c| ==> c[i] in g)
    && (forall i :: 0 <= i < |c| - 1 ==> c[i + 1] in g[c[i]])
    && c[0] in g[c[|c| - 1]]
    && (forall i, j :: 0 <= i < j < |c| ==> c[i] != c[j])
  }

  lemma {:induction false} LeavesForward<V(!new)>(g: Graph<V>, f: Forest<V>, c: seq<V>, y: V, i: nat) returns (e: nat)
    requires IsDfsForest(g, f) && IsLoop(g, c) && IsHead(f, y) && i < |c| && Above(f, y, c[i])
    ensures Above(f, y, c[0]) || c[0] == Parent(f, y) || (i < e < |c| && c[e] == Parent(f, y))
    decreases |c| - i
  {
    e := i;
    if i == |c| - 1 {
      HeadSeparates(g, f, y, c[i], c[0]);
    } else {
      HeadSeparates(g, f, y, c[i], c[i + 1]);
      if c[i + 1] == Parent(f, y) { e := i + 1; } else { e := LeavesForward(g, f, c, y, i + 1); }
    }
  }

  lemma {:induction false} LeavesBackward<V(!new)>(g: Graph<V>, f: Forest<V>, c: seq<V>, y: V, i: nat) returns (e: nat)
    requires Undirected(g) && IsDfsForest(g, f) && IsLoop(g, c) && IsHead(f, y) && i < |c| && Above(f, y, c[i])
    ensures Above(f, y, c[0]) || c[0] == Parent(f, y) || (e < i && c[e] == Parent(f, y))
  {
    e := i;
    if i > 0 {
      HeadSeparates(g, f, y, c[i], c[i - 1]);
      if c[i - 1] == Parent(f, y) { e := i - 1; } else { e := LeavesBackward(g, f, c, y, i - 1); }
    }
  }

  /** A loop cannot enter a head's subtree and come back: it would pass the head's parent twice. */
  lemma NoHeadOnLoop<V(!new)>(g: Graph<V>, f: Forest<V>, c: seq<V>, y: V, i: nat)
    requires Undirected(g) && IsDfsForest(g, f) && IsLoop(g, c) && i < |c| && Above(f, y, c[i])
    requires y in f.above && !IsRoot(f, y) && !Above(f, y, c[0]) && c[0] != Parent(f, y)
    ensures !IsHead(f, y)
  {
    if IsHead(f, y) {
      var e := LeavesForward(g, f, c, y, i);
      var d := LeavesBackward(g, f, c, y, i);
    }
  }

  ghost predicate StartsEarliest<V(!new)>(f: Forest<V>, c: seq<V>) {
    |c| > 0 && c[0] in f.disc && forall i :: 0 <= i < |c| ==> c[i] in f.disc && f.disc[c[0]] <= f.disc[c[i]]
  }

  /** k is the child of top on the way down to x. */
  ghost predicate ViaChild<V(!new)>(f: Forest<V>, top: V, k: V, x: V)
    requires IsTreeShape(f)
  {
    k in f.above && !IsRoot(f, k) && Parent(f, k) == top && Above(f, k, x)
  }

  lemma {:induction false} ChildTowards<V(!new)>(f: Forest<V>, top: V, x: V) returns (k: V)
    requires IsTreeShape(f) && Above(f, top, x) && top != x
    ensures ViaChild(f, top, k, x)
    decreases f.depth[x]
  {
    if Parent(f, x) == top {
      k := x;
    } else {
      k := ChildTowards(f, top, Parent(f, x));
    }
  }

  lemma StaysBelowChild<V(!new)>(f: Forest<V>, top: V, k: V, u: V, w: V)
    requires IsTreeShape(f) && ViaChild(f, top, k, u) && w in f.above && w != top
    requires top in f.disc && f.disc[top] <= f.disc[w]
    requires Above(f, u, w) || Above(f, w, u)
    ensures ViaChild(f, top, k, w)
  {
  }

  /** All further nodes of a loop hang below one child of its earliest node. */
  lemma {:induction false} LoopHangsBelow<V(!new)>(g: Graph<V>, f: Forest<V>, c: seq<V>, k: V, i: nat)
    requires IsDfsForest(g, f) && IsLoop(g, c) && StartsEarliest(f, c) && ViaChild(f, c[0], k, c[1]) && 1 <= i < |c|
    ensures ViaChild(f, c[0], k, c[i])
  {
    if i > 1 {
      LoopHangsBelow(g, f, c, k, i - 1);
      StaysBelowChild(f, c[0], k, c[i - 1], c[i]);
    }
  }

  lemma LoopMember<V(!new)>(g: Graph<V>, f: Forest<V>, c: seq<V>, h: V, k: V, i: nat)
    requires Undirected(g) && IsDfsForest(g, f) && IsLoop(g, c) && 1 <= i < |c|
    requires ViaChild(f, c[0], k, c[i]) && Member(f, h, k)
    ensures Member(f, h, c[i])
  {
    forall v | Above(f, v, c[i]) && Above(f, h, v) && v != h ensures !IsHead(f, v) {
      if !Above(f, v, k) && IsHead(f, v) {
        DeepIsOffLoopStart(f, c[0], k, v, c[i]);
        NoHeadOnLoop(g, f, c, v, i);
      }
    }
  }

  lemma DeepIsOffLoopStart<V(!new)>(f: Forest<V>, top: V, k: V, v: V, x: V)
    requires IsTreeShape(f) && ViaChild(f, top, k, x) && Above(f, v, x) && !Above(f, v, k)
    ensures v in f.above && !IsRoot(f, v) && !Above(f, v, top) && top != Parent(f, v)
  {
  }

  lemma EarliestLoopInBlock<V(!new)>(g: Graph<V>, f: Forest<V>, c: seq<V>) returns (h: V)
    requires Undirected(g) && IsDfsForest(g, f) && IsLoop(g, c) && StartsEarliest(f, c)
    ensures IsHead(f, h) && forall i :: 0 <= i < |c| ==> c[i] in Block(f, h)
  {
    FirstStepDescends(g, f, c);
    var k := ChildTowards(f, c[0], c[1]);
    h := HeadExists(g, f, k);
    forall i | 1 <= i < |c| ensures Member(f, h, c[i]) {
      LoopHangsBelow(g, f, c, k, i);
      LoopMember(g, f, c, h, k, i);
    }
    UpperEndInBlock(g, f, h, c[0], c[1]);
  }

  lemma FirstStepDescends<V(!new)>(g: Graph<V>, f: Forest<V>, c: seq<V>)
    requires Undirected(g) && IsDfsForest(g, f) && IsLoop(g, c) && StartsEarliest(f, c)
    ensures Above(f, c[0], c[1]) && c[0] != c[1] && c[0] in g[c[1]]
  {
    assert c[0 + 1] in g[c[0]];
  }

  lemma Earliest<V(!new)>(f: Forest<V>, c: seq<V>) returns (m: nat)
    requires |c| > 0 && forall i :: 0 <= i < |c| ==> c[i] in f.disc
    ensures m < |c| && forall i :: 0 <= i < |c| ==> f.disc[c[m]] <= f.disc[c[i]]
  {
    m := 0;
    for n := 1 to |c|
      invariant m < |c| && forall i :: 0 <= i < n ==> f.disc[c[m]] <= f.disc[c[i]]
    {
      if f.disc[c[n]] < f.disc[c[m]] { m := n; }
    }
  }

  lemma TurnedLoop<V(!new)>(g: Graph<V>, c: seq<V>, m: nat)
    requires IsLoop(g, c) && m < |c|
    ensures IsLoop(g, c[m..] + c[..m])
  {
    var turned := c[m..] + c[..m];
    forall i | 0 <= i < |turned| - 1 ensures turned[i + 1] in g[turned[i]] {
      var j := if i + m < |c| then i + m else i + m - |c|;
      assert turned[i] == c[j];
      if j + 1 < |c| { assert turned[i + 1] == c[j + 1]; }
    }
    if m > 0 { assert c[m - 1 + 1] in g[c[m - 1]]; }
  }

  lemma TurnToEarliest<V(!new)>(g: Graph<V>, f: Forest<V>, c: seq<V>) returns (turned: seq<V>)
    requires IsLoop(g, c) && forall i :: 0 <= i < |c| ==> c[i] in f.disc
    ensures IsLoop(g, turned) && StartsEarliest(f, turned)
    ensures forall v :: v in c ==> v in turned
  {
    var m := Earliest(f, c);
    turned := c[m..] + c[..m];
    TurnedLoop(g, c, m);
    assert c == c[..m] + c[m..];
    forall i | 0 <= i < |turned| ensures turned[i] in f.disc && f.disc[c[m]] <= f.disc[turned[i]] {
      assert turned[i] == if i + m < |c| then c[i + m] else c[i + m - |c|];
    }
  }

  /** All nodes of a simple cycle lie together in one block. */
  lemma LoopInBlock<V(!new)>(g: Graph<V>, f: Forest<V>, c: seq<V>) returns (h: V)
    requires Undirected(g) && IsDfsForest(g, f) && IsLoop(g, c)
    ensures IsHead(f, h) && forall v :: v in c ==> v in Block(f, h)
  {
    var turned := TurnToEarliest(g, f, c);
    h := EarliestLoopInBlock(g, f, turned);
  }

  // ----- Blocks have no cut node -----

  /** The edges of g whose ends both lie in s. */
  ghost function Inside<V(!new)>(g: Graph<V>, s: set<V>): set<(V, V)> {
    set u, v | u in s && v in s && u in g && v in g[u] :: (u, v)
  }

  ghost predicate Linked<V(!new)>(g: Graph<V>, s: set<V>, x: V, y: V) {
    x in s && y in s && (x == y || Reaches(Inside(g, s), x, y))
  }

  lemma LinkStep<V(!new)>(g: Graph<V>, s: set<V>, x: V, y: V, z: V)
    requires Linked(g, s, x, y) && y in g && z in g[y] && z in s
    ensures Linked(g, s, x, z)
  {
    EdgeReaches(Inside(g, s), y, z);
    if x != y { ReachesTransitive(Inside(g, s), x, y, z); }
  }

  lemma LinkedSymmetric<V(!new)>(g: Graph<V>, s: set<V>, x: V, y: V)
    requires Undirected(g) && Linked(g, s, x, y)
    ensures Linked(g, s, y, x)
  {
    assert IsSymmetric(Inside(g, s));
    if x != y { ReachesSymmetric(Inside(g, s), x, y); }
  }

  lemma LinkedTransitive<V(!new)>(g: Graph<V>, s: set<V>, x: V, y: V, z: V)
    requires Linked(g, s, x, y) && Linked(g, s, y, z)
    ensures Linked(g, s, x, z)
  {
    if x != y && y != z { ReachesTransitive(Inside(g, s), x, y, z); }
  }

  /** Tree edges link x to its ancestor y, as long as the path between them stays inside s. */
  lemma {:induction false} Climb<V(!new)>(g: Graph<V>, f: Forest<V>, s: set<V>, y: V, x: V)
    requires IsTreeShape(f) && TreeEdges(g, f) && Above(f, y, x) && x in f.above
    requires forall v :: Above(f, v, x) && Above(f, y, v) ==> v in s
    ensures Linked(g, s, y, x)
    decreases f.depth[x]
  {
    if y != x {
      var p := Parent(f, x);
      Climb(g, f, s, y, p);
      LinkStep(g, s, y, p, x);
    }
  }

  lemma OnBlockPath<V(!new)>(f: Forest<V>, h: V, v: V, x: V)
    requires IsTreeShape(f) && IsHead(f, h) && Member(f, h, x) && Above(f, v, x) && Above(f, Parent(f, h), v)
    ensures v in Block(f, h)
  {
    if Above(f, h, v) { MemberAbove(f, h, v, x); }
  }

  /** Inside a block and clear of z, a member is linked to each of its ancestors down to the head's parent. */
  lemma ClimbInBlock<V(!new)>(g: Graph<V>, f: Forest<V>, h: V, z: V, y: V, x: V)
    requires IsTreeShape(f) && TreeEdges(g, f) && IsHead(f, h) && Member(f, h, x)
    requires Above(f, y, x) && Above(f, Parent(f, h), y)
    requires forall v :: Above(f, v, x) && Above(f, y, v) ==> v != z
    ensures Linked(g, Block(f, h) - {z}, y, x)
  {
    forall v | Above(f, v, x) && Above(f, y, v) ensures v in Block(f, h) - {z} {
      OnBlockPath(f, h, v, x);
    }
    Climb(g, f, Block(f, h) - {z}, y, x);
  }

  lemma LinkRises<V(!new)>(f: Forest<V>, y: V, u: V, w: V)
    requires IsTreeShape(f) && Above(f, y, u) && Above(f, w, u) && !IsRoot(f, y)
    requires w in f.disc && Parent(f, y) in f.disc && f.disc[w] < f.disc[Parent(f, y)]
    ensures f.depth[w] < f.depth[y] - 1
  {
    var p := Parent(f, y);
  }

  /** A node that is no head has a descendant adjacent to something above the node's parent. */
  lemma NonHeadHasBackLink<V(!new)>(g: Graph<V>, f: Forest<V>, y: V) returns (u: V, w: V)
    requires IsDfsForest(g, f) && y in g && !IsRoot(f, y) && !IsHead(f, y)
    ensures BackLink(g, f, y, u, w) && f.low[y] < f.disc[Parent(f, y)] && f.depth[w] < f.depth[y] - 1
  {
    assert f.disc[Parent(f, y)] < f.disc[y] by { assert Above(f, Parent(f, y), y); }
    u, w :| BackLink(g, f, y, u, w);
    LinkRises(f, y, u, w);
  }

  /** An edge that climbs above y's parent cannot start below a head that lies below y. */
  lemma HeadKeepsBackLinks<V(!new)>(g: Graph<V>, f: Forest<V>, z: V, y: V, u: V, w: V)
    requires IsDfsForest(g, f) && IsHead(f, z) && Above(f, z, u) && w in g[u] && Above(f, y, z) && y != z
    ensures w in f.disc && f.disc[y] <= f.disc[w]
  {
    HeadSeparates(g, f, z, u, w);
  }

  lemma DetourMember<V(!new)>(g: Graph<V>, f: Forest<V>, h: V, y: V, u: V, w: V)
    requires IsDfsForest(g, f) && Member(f, h, y) && BackLink(g, f, y, u, w)
    requires f.disc[w] < f.disc[y]
    ensures Member(f, h, u)
  {
    forall v | Above(f, v, u) && Above(f, h, v) && v != h ensures !IsHead(f, v) {
      if !Above(f, v, y) && IsHead(f, v) {
        HeadKeepsBackLinks(g, f, v, y, u, w);
      }
    }
  }

  /** Below a node that is no head, some edge leads above that node's parent and stays in the block. */
  lemma Detour<V(!new)>(g: Graph<V>, f: Forest<V>, h: V, y: V) returns (u: V, w: V)
    requires IsDfsForest(g, f) && IsHead(f, h) && Member(f, h, y) && y != h
    ensures Above(f, y, u) && Member(f, h, u) && u in g && w in g[u]
    ensures w in Block(f, h) && w in f.above && f.depth[w] < f.depth[y] - 1
  {
    u, w := NonHeadHasBackLink(g, f, y);
    DetourMember(g, f, h, y, u, w);
    UpperEndInBlock(g, f, h, w, u);
  }

  lemma UpperEndReachesTop<V(!new)>(g: Graph<V>, f: Forest<V>, h: V, z: V, w: V)
    requires IsDfsForest(g, f) && IsHead(f, h) && w in Block(f, h)
    requires z in f.above && w in f.above && f.depth[w] < f.depth[z] && z != Parent(f, h)
    ensures Linked(g, Block(f, h) - {z}, Parent(f, h), w)
  {
    if w != Parent(f, h) {
      ClimbInBlock(g, f, h, z, Parent(f, h), w);
    }
  }

  lemma ClearOfCut<V(!new)>(g: Graph<V>, f: Forest<V>, h: V, z: V, y: V, x: V)
    requires IsDfsForest(g, f) && IsHead(f, h) && Member(f, h, x) && Member(f, h, y)
    requires Above(f, y, x) && z in f.above && f.depth[z] < f.depth[y]
    ensures Linked(g, Block(f, h) - {z}, y, x)
  {
    ClimbInBlock(g, f, h, z, y, x);
  }

  /** If z cuts the tree path of x, an edge from below the cut passes over z. */
  lemma AroundCut<V(!new)>(g: Graph<V>, f: Forest<V>, h: V, z: V, x: V)
    requires Undirected(g) && IsDfsForest(g, f) && IsHead(f, h) && Member(f, h, x)
    requires Above(f, z, x) && z != x && Above(f, h, z) && z in f.above
    ensures z != Parent(f, h) ==> Linked(g, Block(f, h) - {z}, Parent(f, h), x)
  {
    var y := ChildTowards(f, z, x);
    MemberAbove(f, h, y, x);
    var u, w := Detour(g, f, h, y);
    var s := Block(f, h) - {z};
    ClearOfCut(g, f, h, z, y, x);
    ClearOfCut(g, f, h, z, y, u);
    if z != Parent(f, h) {
      UpperEndReachesTop(g, f, h, z, w);
      LinkStep(g, s, Parent(f, h), w, u);
      LinkedSymmetric(g, s, y, u);
      LinkedTransitive(g, s, Parent(f, h), u, y);
      LinkedTransitive(g, s, Parent(f, h), y, x);
    }
  }

  /** Taking any node z out of a block, every other member is still reached from the block's top node. */
  lemma MemberReachesTop<V(!new)>(g: Graph<V>, f: Forest<V>, h: V, z: V, x: V)
    requires Undirected(g) && IsDfsForest(g, f) && IsHead(f, h) && Member(f, h, x)
    requires z != x && z != Parent(f, h)
    ensures Linked(g, Block(f, h) - {z}, Parent(f, h), x)
  {
    if Above(f, z, x) && Above(f, Parent(f, h), z) {
      AroundCut(g, f, h, z, x);
    } else {
      ClimbInBlock(g, f, h, z, Parent(f, h), x);
    }
  }

  lemma AnchorReaches<V(!new)>(g: Graph<V>, f: Forest<V>, h: V, z: V, x: V)
    requires Undirected(g) && IsDfsForest(g, f) && IsHead(f, h) && x in Block(f, h) - {z}
    ensures Linked(g, Block(f, h) - {z}, if z == Parent(f, h) then h else Parent(f, h), x)
  {
    if z == Parent(f, h) {
      ClearOfCut(g, f, h, z, h, x);
    } else if x != Parent(f, h) {
      MemberReachesTop(g, f, h, z, x);
    }
  }

  /** Blocks have no cut node: without z, any two other nodes of a block are still linked inside it. */
  lemma BlockHasNoCutNode<V(!new)>(g: Graph<V>, f: Forest<V>, h: V, z: V, x: V, y: V)
    requires Undirected(g) && IsDfsForest(g, f) && IsHead(f, h)
    requires x in Block(f, h) - {z} && y in Block(f, h) - {z}
    ensures Linked(g, Block(f, h) - {z}, x, y)
  {
    var s := Block(f, h) - {z};
    var anchor := if z == Parent(f, h) then h else Parent(f, h);
    AnchorReaches(g, f, h, z, x);
    AnchorReaches(g, f, h, z, y);
    LinkedSymmetric(g, s, anchor, x);
    LinkedTransitive(g, s, x, anchor, y);
  }
}

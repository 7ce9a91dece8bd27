/** Which fences and atomics a window keeps between its communication endpoints. */
module Boundaries {
  import opened Events
  import opened Graphs
  import opened PreservedOrder

  datatype Category = FULL | READ | WRITE

  /** Atomics and MFENCE order everything, so one of them can stand for all at the same place. */
  function CategoryOf(kind: EventKind): Category {
    if kind == ATOMIC_RMW || kind == FUTEX_WAIT || kind == MFENCE then FULL
    else if kind == LFENCE then READ
    else WRITE
  }

  /** How many endpoints come before the boundary: where it would be inserted in the sorted list. */
  function Cut(endpoints: seq<TraceEvent>, boundary: TraceEvent): (cut: nat)
    ensures cut <= |endpoints|
  {
    if endpoints != [] && endpoints[0].sequence < boundary.sequence then 1 + Cut(endpoints[1..], boundary) else 0
  }

  lemma {:induction false} CutSeparates(endpoints: seq<TraceEvent>, boundary: TraceEvent, i: nat)
    requires SortedThread(endpoints) && i < |endpoints|
    ensures i < Cut(endpoints, boundary) <==> endpoints[i].sequence < boundary.sequence
  {
    if endpoints[0].sequence < boundary.sequence && i > 0 {
      assert forall k :: 0 <= k < |endpoints| - 1 ==> endpoints[1..][k] == endpoints[k + 1];
      CutSeparates(endpoints[1..], boundary, i - 1);
    }
  }

  /** The events of one thread from which a window is cut: sorted endpoints and the boundaries between. */
  ghost predicate ThreadRange(endpoints: seq<TraceEvent>, boundaries: seq<TraceEvent>) {
    && SortedThread(endpoints) && SortedThread(boundaries)
    && (forall e :: e in endpoints ==> e.IsMemory())
    && (forall b :: b in boundaries ==> b.kind.IsBoundary())
    && (forall e, b :: e in endpoints && b in boundaries ==>
      e.thread == b.thread && (e.sequence == b.sequence ==> e == b))
  }

  /** A boundary that is no endpoint and has endpoints on both sides. */
  predicate Separates(endpoints: seq<TraceEvent>, b: TraceEvent) {
    b !in endpoints && 0 < Cut(endpoints, b) < |endpoints|
  }

  /** y does for the endpoints what x does. */
  predicate Replaces(endpoints: seq<TraceEvent>, x: TraceEvent, y: TraceEvent) {
    && Separates(endpoints, y) && Cut(endpoints, y) == Cut(endpoints, x)
    && (CategoryOf(y.kind) == FULL || CategoryOf(y.kind) == CategoryOf(x.kind))
  }

  ghost predicate HasReplacement(endpoints: seq<TraceEvent>, kept: seq<TraceEvent>, x: TraceEvent) {
    exists y :: y in kept && Replaces(endpoints, x, y)
  }

  ghost predicate KeepsEnough(endpoints: seq<TraceEvent>, boundaries: seq<TraceEvent>, kept: seq<TraceEvent>) {
    && (forall y :: y in kept ==> y in boundaries && Separates(endpoints, y))
    && (forall x {:trigger HasReplacement(endpoints, kept, x)} :: x in boundaries && Separates(endpoints, x) ==>
          HasReplacement(endpoints, kept, x))
  }

  /** A fence, atomic or futex wait with endpoints before and after it that is none of them. */
  ghost predicate IsInside(endpoints: seq<TraceEvent>, b: TraceEvent) {
    && b !in endpoints && b.kind in {ATOMIC_RMW, LFENCE, SFENCE, MFENCE, FUTEX_WAIT}
    && (exists e :: e in endpoints && e.thread == b.thread && e.sequence < b.sequence)
    && (exists e :: e in endpoints && e.thread == b.thread && b.sequence < e.sequence)
  }

  ghost predicate InSameGap(endpoints: seq<TraceEvent>, x: TraceEvent, y: TraceEvent) {
    forall e :: e in endpoints ==> (e.sequence < x.sequence <==> e.sequence < y.sequence)
  }

  /** No atomic, futex wait or MFENCE in the gap of b comes first or outdoes b, and no fence of its own kind. */
  ghost predicate IsUnrivalled(endpoints: seq<TraceEvent>, events: seq<TraceEvent>, b: TraceEvent) {
    forall x :: x in events && IsInside(endpoints, x) && InSameGap(endpoints, x, b) ==>
      && (x.kind in {ATOMIC_RMW, FUTEX_WAIT, MFENCE} ==>
            b.kind in {ATOMIC_RMW, FUTEX_WAIT, MFENCE} && b.sequence <= x.sequence)
      && (x.kind == b.kind ==> b.sequence <= x.sequence)
  }

  /** What a window keeps of the events beside its endpoints. */
  ghost predicate IsNeeded(endpoints: seq<TraceEvent>, events: seq<TraceEvent>, b: TraceEvent) {
    b in events && IsInside(endpoints, b) && IsUnrivalled(endpoints, events, b)
  }

  ghost function BoundaryOrder(events: set<TraceEvent>): set<Edge> {
    set a, b | a in events && b in events && BoundaryPair(a, b) :: (a, b)
  }

  ghost function Members(events: seq<TraceEvent>): set<TraceEvent> {
    set e | e in events
  }

  // ----- Keeping enough boundaries keeps the order of the endpoints -----

  lemma IndexOf(events: seq<TraceEvent>, e: TraceEvent) returns (i: nat)
    requires e in events
    ensures i < |events| && events[i] == e
  {
    i :| 0 <= i < |events| && events[i] == e;
  }

  /** Between two endpoints, whatever has the same cut as x also lies between them. */
  lemma SameCutBetween(endpoints: seq<TraceEvent>, boundaries: seq<TraceEvent>, g: TraceEvent, x: TraceEvent,
                       y: TraceEvent, w: TraceEvent)
    requires ThreadRange(endpoints, boundaries) && g in endpoints && w in endpoints && x in boundaries
      && y in boundaries
    requires g.sequence < x.sequence < w.sequence && y !in endpoints && Cut(endpoints, y) == Cut(endpoints, x)
    ensures g.Precedes(y) && y.Precedes(w)
  {
    var i := IndexOf(endpoints, g);
    var j := IndexOf(endpoints, w);
    CutSeparates(endpoints, x, i);
    CutSeparates(endpoints, y, i);
    CutSeparates(endpoints, x, j);
    CutSeparates(endpoints, y, j);
  }

  lemma InnerSeparates(endpoints: seq<TraceEvent>, boundaries: seq<TraceEvent>, g: TraceEvent, x: TraceEvent,
                       w: TraceEvent)
    requires ThreadRange(endpoints, boundaries) && g in endpoints && w in endpoints && x in boundaries
    requires g.sequence < x.sequence < w.sequence && x !in endpoints
    ensures Separates(endpoints, x)
  {
    var i := IndexOf(endpoints, g);
    var j := IndexOf(endpoints, w);
    CutSeparates(endpoints, x, i);
    CutSeparates(endpoints, x, j);
  }

  lemma ReplacementAccepts(x: TraceEvent, y: TraceEvent, e: TraceEvent)
    requires x.kind.IsBoundary() && y.kind.IsBoundary() && e.IsMemory() && Accepts(x.kind, e)
    requires CategoryOf(y.kind) == FULL || CategoryOf(y.kind) == CategoryOf(x.kind)
    ensures Accepts(y.kind, e)
  {
  }

  lemma ThroughOne(events: set<TraceEvent>, g: TraceEvent, y: TraceEvent, w: TraceEvent)
    requires g in events && y in events && w in events && BoundaryPair(g, y) && BoundaryPair(y, w)
    ensures Reaches(BoundaryOrder(events), g, w)
  {
    EdgeReaches(BoundaryOrder(events), g, y);
    EdgeReaches(BoundaryOrder(events), y, w);
    ReachesTransitive(BoundaryOrder(events), g, y, w);
  }

  /** A boundary between g and w that accepts both has a kept replacement that accepts both. */
  lemma Detour(endpoints: seq<TraceEvent>, boundaries: seq<TraceEvent>, kept: seq<TraceEvent>, g: TraceEvent,
               x: TraceEvent, w: TraceEvent)
    requires ThreadRange(endpoints, boundaries) && KeepsEnough(endpoints, boundaries, kept)
    requires g in endpoints && w in endpoints && x in boundaries && x !in endpoints
    requires g.sequence < x.sequence < w.sequence && Accepts(x.kind, g) && Accepts(x.kind, w)
    ensures Reaches(BoundaryOrder(Members(endpoints) + Members(kept)), g, w)
  {
    InnerSeparates(endpoints, boundaries, g, x, w);
    assert HasReplacement(endpoints, kept, x);
    var y :| y in kept && Replaces(endpoints, x, y);
    SameCutBetween(endpoints, boundaries, g, x, y, w);
    ReplacementAccepts(x, y, g);
    ReplacementAccepts(x, y, w);
    ThroughOne(Members(endpoints) + Members(kept), g, y, w);
  }

  /** A full boundary lies after g and not after v. */
  ghost predicate FullBetween(endpoints: seq<TraceEvent>, boundaries: seq<TraceEvent>, g: TraceEvent, v: TraceEvent) {
    exists x :: x in boundaries && x !in endpoints && CategoryOf(x.kind) == FULL
      && g.sequence < x.sequence <= v.sequence
  }

  /** How far a walk over all boundaries has come, seen from its last endpoint g. */
  ghost predicate Arrived(endpoints: seq<TraceEvent>, boundaries: seq<TraceEvent>, kept: seq<TraceEvent>,
                          e: TraceEvent, g: TraceEvent, v: TraceEvent) {
    && g in endpoints
    && (g == e || Reaches(BoundaryOrder(Members(endpoints) + Members(kept)), e, g))
    && (v == g || (v !in endpoints && v in boundaries && g.sequence < v.sequence
                   && (BoundaryPair(g, v) || FullBetween(endpoints, boundaries, g, v))))
  }

  lemma Advance(order: set<Edge>, e: TraceEvent, g: TraceEvent, w: TraceEvent)
    requires (g == e || Reaches(order, e, g)) && Reaches(order, g, w)
    ensures Reaches(order, e, w)
  {
    if g != e { ReachesTransitive(order, e, g, w); }
  }

  lemma StepToEndpoint(endpoints: seq<TraceEvent>, boundaries: seq<TraceEvent>, kept: seq<TraceEvent>, e: TraceEvent,
                       g: TraceEvent, v: TraceEvent, w: TraceEvent)
    requires ThreadRange(endpoints, boundaries) && KeepsEnough(endpoints, boundaries, kept)
    requires Arrived(endpoints, boundaries, kept, e, g, v) && w in endpoints && BoundaryPair(v, w)
    ensures Reaches(BoundaryOrder(Members(endpoints) + Members(kept)), g, w)
  {
    if v == g {
      EdgeReaches(BoundaryOrder(Members(endpoints) + Members(kept)), g, w);
    } else if FullBetween(endpoints, boundaries, g, v) {
      var x :| x in boundaries && x !in endpoints && CategoryOf(x.kind) == FULL
        && g.sequence < x.sequence <= v.sequence;
      Detour(endpoints, boundaries, kept, g, x, w);
    } else {
      assert v.kind.IsBoundary() && !(v.IsMemory() && CategoryOf(v.kind) != FULL);
      Detour(endpoints, boundaries, kept, g, v, w);
    }
  }

  lemma StepToBoundary(endpoints: seq<TraceEvent>, boundaries: seq<TraceEvent>, kept: seq<TraceEvent>, e: TraceEvent,
                       g: TraceEvent, v: TraceEvent, w: TraceEvent) returns (h: TraceEvent)
    requires ThreadRange(endpoints, boundaries)
    requires Arrived(endpoints, boundaries, kept, e, g, v) && w in boundaries && w !in endpoints && BoundaryPair(v, w)
    ensures Arrived(endpoints, boundaries, kept, e, h, w)
  {
    h := g;
    if v != g {
      assert v.kind.IsBoundary() && w.kind.IsBoundary();
      if v.IsMemory() { assert CategoryOf(v.kind) == FULL; } else { assert CategoryOf(w.kind) == FULL; }
      assert FullBetween(endpoints, boundaries, g, w);
    }
  }

  lemma {:induction false} WalkArrives(endpoints: seq<TraceEvent>, boundaries: seq<TraceEvent>, kept: seq<TraceEvent>,
                                       p: seq<TraceEvent>, n: nat) returns (g: TraceEvent)
    requires ThreadRange(endpoints, boundaries) && KeepsEnough(endpoints, boundaries, kept)
    requires IsWalk(BoundaryOrder(Members(endpoints) + Members(boundaries)), p) && n < |p| && p[0] in endpoints
    ensures Arrived(endpoints, boundaries, kept, p[0], g, p[n])
    ensures n > 0 && g == p[n] ==> Reaches(BoundaryOrder(Members(endpoints) + Members(kept)), p[0], p[n])
  {
    if n == 0 {
      g := p[0];
    } else {
      var before := WalkArrives(endpoints, boundaries, kept, p, n - 1);
      assert (p[n - 1], p[n]) in BoundaryOrder(Members(endpoints) + Members(boundaries));
      if p[n] in endpoints {
        StepToEndpoint(endpoints, boundaries, kept, p[0], before, p[n - 1], p[n]);
        Advance(BoundaryOrder(Members(endpoints) + Members(kept)), p[0], before, p[n]);
        g := p[n];
      } else {
        g := StepToBoundary(endpoints, boundaries, kept, p[0], before, p[n - 1], p[n]);
      }
    }
  }

  /** Endpoints are ordered through the kept boundaries exactly when they are through all boundaries. */
  lemma KeptBoundariesSuffice(endpoints: seq<TraceEvent>, boundaries: seq<TraceEvent>, kept: seq<TraceEvent>,
                              e: TraceEvent, f: TraceEvent)
    requires ThreadRange(endpoints, boundaries) && KeepsEnough(endpoints, boundaries, kept)
    requires e in endpoints && f in endpoints
    ensures Reaches(BoundaryOrder(Members(endpoints) + Members(kept)), e, f)
       <==> Reaches(BoundaryOrder(Members(endpoints) + Members(boundaries)), e, f)
  {
    var all, some := BoundaryOrder(Members(endpoints) + Members(boundaries)),
      BoundaryOrder(Members(endpoints) + Members(kept));
    if Reaches(all, e, f) {
      var p :| WalkFromTo(all, p, e, f);
      var g := WalkArrives(endpoints, boundaries, kept, p, |p| - 1);
    }
    if Reaches(some, e, f) {
      assert some <= all;
      ReachesMonotone(some, all, e, f);
    }
  }

  // ----- The selection -----

  type Place = (nat, Category)

  ghost predicate IsSelection(endpoints: seq<TraceEvent>, boundaries: seq<TraceEvent>,
                              selected: map<Place, TraceEvent>) {
    forall k :: k in selected ==>
      && selected[k] in boundaries && Separates(endpoints, selected[k])
      && k == (Cut(endpoints, selected[k]), CategoryOf(selected[k].kind))
  }

  /** The first boundary of its place. */
  ghost predicate IsFirst(endpoints: seq<TraceEvent>, boundaries: seq<TraceEvent>, j: nat, k: Place) {
    && j < |boundaries|
    && forall i :: 0 <= i < j && Separates(endpoints, boundaries[i]) ==>
      (Cut(endpoints, boundaries[i]), CategoryOf(boundaries[i].kind)) != k
  }

  ghost predicate AreFirst(endpoints: seq<TraceEvent>, boundaries: seq<TraceEvent>, selected: map<Place, TraceEvent>) {
    forall k :: k in selected ==> exists j: nat :: IsFirst(endpoints, boundaries, j, k) && boundaries[j] == selected[k]
  }

  ghost predicate CoversUpTo(endpoints: seq<TraceEvent>, boundaries: seq<TraceEvent>, n: nat,
                             selected: map<Place, TraceEvent>) {
    forall j :: 0 <= j < n <= |boundaries| && Separates(endpoints, boundaries[j]) ==>
      (Cut(endpoints, boundaries[j]), CategoryOf(boundaries[j].kind)) in selected
  }

  ghost predicate ListsKeys(keys: seq<Place>, selected: map<Place, TraceEvent>) {
    && (forall k :: k in keys <==> k in selected)
    && (forall i, j :: 0 <= i < j < |keys| ==> keys[i] != keys[j])
  }

  /** Read and write representatives are dropped where a full one exists. */
  predicate IsKept(selected: map<Place, TraceEvent>, k: Place) {
    k.1 == FULL || (k.0, FULL) !in selected
  }

  lemma SelectionSuffices(endpoints: seq<TraceEvent>, boundaries: seq<TraceEvent>, selected: map<Place, TraceEvent>,
                          keys: seq<Place>, kept: seq<TraceEvent>)
    requires IsSelection(endpoints, boundaries, selected) && CoversUpTo(endpoints, boundaries, |boundaries|, selected)
    requires ListsKeys(keys, selected)
    requires forall k :: k in keys && IsKept(selected, k) ==> selected[k] in kept
    requires forall y :: y in kept ==> exists k :: k in keys && selected[k] == y
    ensures KeepsEnough(endpoints, boundaries, kept)
  {
    forall x | x in boundaries && Separates(endpoints, x) ensures HasReplacement(endpoints, kept, x) {
      var j := IndexOf(boundaries, x);
      var k := (Cut(endpoints, x), CategoryOf(x.kind));
      var best := if IsKept(selected, k) then k else (k.0, FULL);
      assert best in keys && Replaces(endpoints, x, selected[best]);
    }
  }

  ghost function Slots(n: nat): (slots: set<(nat, bool)>)
    ensures |slots| == (if n == 0 then 0 else 2 * (n - 1))
    ensures forall c, b :: (c, b) in slots <==> 1 <= c < n
  {
    if n <= 1 then {} else
      var rest := Slots(n - 1);
      assert rest + {(n - 1, true)} + {(n - 1, false)} == rest + {(n - 1, true), (n - 1, false)};
      rest + {(n - 1, true), (n - 1, false)}
  }

  ghost function SlotOf(k: Place): (nat, bool) { (k.0, k.1 == WRITE) }

  lemma {:induction false} DistinctFit<T>(items: seq<T>, room: set<T>)
    requires forall i :: 0 <= i < |items| ==> items[i] in room
    requires forall i, j :: 0 <= i < j < |items| ==> items[i] != items[j]
    ensures |items| <= |room|
  {
    if items != [] {
      var n := |items| - 1;
      DistinctFit(items[..n], room - {items[n]});
    }
  }

  /** Kept representatives occupy different slots: one for reads or everything, one for writes, in each gap. */
  lemma KeptAreFew(endpoints: seq<TraceEvent>, boundaries: seq<TraceEvent>, selected: map<Place, TraceEvent>,
                   used: seq<Place>)
    requires IsSelection(endpoints, boundaries, selected)
    requires forall i :: 0 <= i < |used| ==> used[i] in selected && IsKept(selected, used[i])
    requires forall i, j :: 0 <= i < j < |used| ==> used[i] != used[j]
    ensures |used| <= if endpoints == [] then 0 else 2 * (|endpoints| - 1)
  {
    var slots := seq(|used|, i requires 0 <= i < |used| => SlotOf(used[i]));
    forall i | 0 <= i < |slots| ensures slots[i] in Slots(|endpoints|) {
      assert Separates(endpoints, selected[used[i]]);
    }
    forall i, j | 0 <= i < j < |slots| ensures slots[i] != slots[j] {
      assert used[i] != used[j];
    }
    DistinctFit(slots, Slots(|endpoints|));
  }

  method SelectBoundaries(endpoints: seq<TraceEvent>, boundaries: seq<TraceEvent>)
    returns (selected: map<Place, TraceEvent>, keys: seq<Place>)
    ensures IsSelection(endpoints, boundaries, selected) && ListsKeys(keys, selected)
    ensures CoversUpTo(endpoints, boundaries, |boundaries|, selected)
    ensures AreFirst(endpoints, boundaries, selected)
  {
    selected, keys := map[], [];
    for i := 0 to |boundaries|
      invariant IsSelection(endpoints, boundaries, selected) && ListsKeys(keys, selected)
      invariant CoversUpTo(endpoints, boundaries, i, selected) && AreFirst(endpoints, boundaries, selected)
    {
      var boundary := boundaries[i];
      if boundary in endpoints {
        continue;
      }
      var cut := Cut(endpoints, boundary);
      if cut == 0 || cut == |endpoints| {
        continue;
      }
      var key := (cut, CategoryOf(boundary.kind));
      if key !in selected {
        assert IsFirst(endpoints, boundaries, i, key);
        selected := selected[key := boundary];
        keys := keys + [key];
      }
    }
  }

  /** `kept` holds the representatives of the kept keys among the first `i`; `used` are those keys. */
  ghost predicate KeptSoFar(selected: map<Place, TraceEvent>, keys: seq<Place>, i: nat, kept: seq<TraceEvent>,
                            used: seq<Place>)
    requires ListsKeys(keys, selected)
  {
    && i <= |keys| && |used| == |kept|
    && (forall m :: 0 <= m < |used| ==>
      used[m] in keys[..i] && IsKept(selected, used[m]) && kept[m] == selected[used[m]])
    && (forall m, n :: 0 <= m < n < |used| ==> used[m] != used[n])
    && (forall j :: 0 <= j < i && IsKept(selected, keys[j]) ==> keys[j] in used)
  }

  lemma KeepNext(selected: map<Place, TraceEvent>, keys: seq<Place>, i: nat, kept: seq<TraceEvent>, used: seq<Place>)
    requires ListsKeys(keys, selected) && KeptSoFar(selected, keys, i, kept, used)
    requires i < |keys| && IsKept(selected, keys[i])
    ensures KeptSoFar(selected, keys, i + 1, kept + [selected[keys[i]]], used + [keys[i]])
  {
  }

  lemma DropNext(selected: map<Place, TraceEvent>, keys: seq<Place>, i: nat, kept: seq<TraceEvent>, used: seq<Place>)
    requires ListsKeys(keys, selected) && KeptSoFar(selected, keys, i, kept, used)
    requires i < |keys| && !IsKept(selected, keys[i])
    ensures KeptSoFar(selected, keys, i + 1, kept, used)
  {
  }

  lemma KeptSuffice(endpoints: seq<TraceEvent>, boundaries: seq<TraceEvent>, selected: map<Place, TraceEvent>,
                    keys: seq<Place>, kept: seq<TraceEvent>, used: seq<Place>)
    requires IsSelection(endpoints, boundaries, selected) && CoversUpTo(endpoints, boundaries, |boundaries|, selected)
    requires ListsKeys(keys, selected) && KeptSoFar(selected, keys, |keys|, kept, used)
    ensures KeepsEnough(endpoints, boundaries, kept)
  {
    forall k | k in keys && IsKept(selected, k) ensures selected[k] in kept {
      var m :| 0 <= m < |used| && used[m] == k;
      assert kept[m] == selected[k];
    }
    forall y | y in kept ensures exists k :: k in keys && selected[k] == y {
      var m :| 0 <= m < |kept| && kept[m] == y;
      assert used[m] in keys && selected[used[m]] == y;
    }
    SelectionSuffices(endpoints, boundaries, selected, keys, kept);
  }

  // ----- Exactly the needed boundaries are kept -----

  lemma InsideIffSeparates(endpoints: seq<TraceEvent>, boundaries: seq<TraceEvent>, b: TraceEvent)
    requires ThreadRange(endpoints, boundaries) && b in boundaries
    ensures IsInside(endpoints, b) <==> Separates(endpoints, b)
  {
    if IsInside(endpoints, b) {
      var e :| e in endpoints && e.thread == b.thread && e.sequence < b.sequence;
      var f :| f in endpoints && f.thread == b.thread && b.sequence < f.sequence;
      InnerSeparates(endpoints, boundaries, e, b, f);
    }
    if Separates(endpoints, b) {
      CutSeparates(endpoints, b, 0);
      CutSeparates(endpoints, b, |endpoints| - 1);
      assert endpoints[0] in endpoints && endpoints[|endpoints| - 1] in endpoints;
    }
  }

  lemma SameGapIffSameCut(endpoints: seq<TraceEvent>, x: TraceEvent, y: TraceEvent)
    requires SortedThread(endpoints)
    ensures InSameGap(endpoints, x, y) <==> Cut(endpoints, x) == Cut(endpoints, y)
  {
    if Cut(endpoints, x) == Cut(endpoints, y) {
      forall e | e in endpoints ensures e.sequence < x.sequence <==> e.sequence < y.sequence {
        var i := IndexOf(endpoints, e);
        CutSeparates(endpoints, x, i);
        CutSeparates(endpoints, y, i);
      }
    } else {
      var i := if Cut(endpoints, x) < Cut(endpoints, y) then Cut(endpoints, x) else Cut(endpoints, y);
      CutSeparates(endpoints, x, i);
      CutSeparates(endpoints, y, i);
      assert endpoints[i] in endpoints;
    }
  }

  /** The first of its place has the least sequence number there. */
  lemma FirstIsEarliest(endpoints: seq<TraceEvent>, boundaries: seq<TraceEvent>, selected: map<Place, TraceEvent>,
                        k: Place, x: TraceEvent)
    requires SortedThread(boundaries) && AreFirst(endpoints, boundaries, selected) && k in selected
    requires x in boundaries && Separates(endpoints, x) && k == (Cut(endpoints, x), CategoryOf(x.kind))
    ensures selected[k] == x || selected[k].sequence < x.sequence
  {
    var j: nat :| IsFirst(endpoints, boundaries, j, k) && boundaries[j] == selected[k];
    var i := IndexOf(boundaries, x);
    if j < i { assert boundaries[j].Precedes(boundaries[i]); }
  }

  lemma PlaceIsTaken(endpoints: seq<TraceEvent>, boundaries: seq<TraceEvent>, selected: map<Place, TraceEvent>,
                     x: TraceEvent)
    requires CoversUpTo(endpoints, boundaries, |boundaries|, selected) && x in boundaries && Separates(endpoints, x)
    ensures (Cut(endpoints, x), CategoryOf(x.kind)) in selected
  {
    var j := IndexOf(boundaries, x);
  }

  lemma KeptIsNeeded(endpoints: seq<TraceEvent>, boundaries: seq<TraceEvent>, selected: map<Place, TraceEvent>,
                     k: Place)
    requires ThreadRange(endpoints, boundaries) && IsSelection(endpoints, boundaries, selected)
    requires CoversUpTo(endpoints, boundaries, |boundaries|, selected) && AreFirst(endpoints, boundaries, selected)
    requires k in selected && IsKept(selected, k)
    ensures IsNeeded(endpoints, boundaries, selected[k])
  {
    var b := selected[k];
    InsideIffSeparates(endpoints, boundaries, b);
    forall x | x in boundaries && IsInside(endpoints, x) && InSameGap(endpoints, x, b)
      ensures x.kind in {ATOMIC_RMW, FUTEX_WAIT, MFENCE} ==>
                b.kind in {ATOMIC_RMW, FUTEX_WAIT, MFENCE} && b.sequence <= x.sequence
      ensures x.kind == b.kind ==> b.sequence <= x.sequence {
      InsideIffSeparates(endpoints, boundaries, x);
      SameGapIffSameCut(endpoints, x, b);
      PlaceIsTaken(endpoints, boundaries, selected, x);
      if CategoryOf(x.kind) == CategoryOf(b.kind) {
        FirstIsEarliest(endpoints, boundaries, selected, k, x);
      }
    }
  }

  lemma NeededIsKept(endpoints: seq<TraceEvent>, boundaries: seq<TraceEvent>, selected: map<Place, TraceEvent>,
                     b: TraceEvent)
    requires ThreadRange(endpoints, boundaries) && IsSelection(endpoints, boundaries, selected)
    requires CoversUpTo(endpoints, boundaries, |boundaries|, selected) && AreFirst(endpoints, boundaries, selected)
    requires IsNeeded(endpoints, boundaries, b)
    ensures exists k :: k in selected && IsKept(selected, k) && selected[k] == b
  {
    InsideIffSeparates(endpoints, boundaries, b);
    PlaceIsTaken(endpoints, boundaries, selected, b);
    var k, full := (Cut(endpoints, b), CategoryOf(b.kind)), (Cut(endpoints, b), FULL);
    if full in selected {
      InsideIffSeparates(endpoints, boundaries, selected[full]);
      SameGapIffSameCut(endpoints, selected[full], b);
    }
    InsideIffSeparates(endpoints, boundaries, selected[k]);
    SameGapIffSameCut(endpoints, selected[k], b);
    FirstIsEarliest(endpoints, boundaries, selected, k, b);
  }

  lemma KeptIffNeeded(endpoints: seq<TraceEvent>, boundaries: seq<TraceEvent>, selected: map<Place, TraceEvent>,
                      keys: seq<Place>, kept: seq<TraceEvent>, used: seq<Place>)
    requires ThreadRange(endpoints, boundaries) && IsSelection(endpoints, boundaries, selected)
    requires CoversUpTo(endpoints, boundaries, |boundaries|, selected) && AreFirst(endpoints, boundaries, selected)
    requires ListsKeys(keys, selected) && KeptSoFar(selected, keys, |keys|, kept, used)
    ensures forall b :: b in kept <==> IsNeeded(endpoints, boundaries, b)
  {
    forall b | b in kept ensures IsNeeded(endpoints, boundaries, b) {
      var m :| 0 <= m < |kept| && kept[m] == b;
      KeptIsNeeded(endpoints, boundaries, selected, used[m]);
    }
    forall b | IsNeeded(endpoints, boundaries, b) ensures b in kept {
      NeededIsKept(endpoints, boundaries, selected, b);
      var k :| k in selected && IsKept(selected, k) && selected[k] == b;
      var j :| 0 <= j < |keys| && keys[j] == k;
      var m :| 0 <= m < |used| && used[m] == k;
      assert kept[m] == b;
    }
  }

  /** One boundary for each kind of order between neighbouring endpoints, at most two for each gap. */
  method MinimalBoundaries(endpoints: seq<TraceEvent>, boundaries: seq<TraceEvent>) returns (kept: seq<TraceEvent>)
    ensures KeepsEnough(endpoints, boundaries, kept)
    ensures |kept| <= if endpoints == [] then 0 else 2 * (|endpoints| - 1)
    ensures ThreadRange(endpoints, boundaries) ==> forall b :: b in kept <==> IsNeeded(endpoints, boundaries, b)
  {
    var selected, keys := SelectBoundaries(endpoints, boundaries);
    kept := [];
    ghost var used: seq<Place> := [];
    for i := 0 to |keys|
      invariant KeptSoFar(selected, keys, i, kept, used)
    {
      if IsKept(selected, keys[i]) {
        KeepNext(selected, keys, i, kept, used);
        kept := kept + [selected[keys[i]]];
        used := used + [keys[i]];
      } else {
        DropNext(selected, keys, i, kept, used);
      }
    }
    KeptSuffice(endpoints, boundaries, selected, keys, kept, used);
    KeptAreFew(endpoints, boundaries, selected, used);
    if ThreadRange(endpoints, boundaries) {
      KeptIffNeeded(endpoints, boundaries, selected, keys, kept, used);
    }
  }
}

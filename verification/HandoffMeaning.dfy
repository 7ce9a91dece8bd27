/** What the evidence for a thread says about its recorded start, end, creation and join. */
module HandoffMeaning {
  import opened Events
  import opened Communication
  import opened Handoffs

  /** Every thread has a start and an end, and there is a parent and at least one worker. */
  predicate AllAreRecorded(lifetimes: seq<Lifetime>) {
    1 < |lifetimes| && forall k :: 0 <= k < |lifetimes| ==> lifetimes[k].start != None && lifetimes[k].end != None
  }

  /** Worker w is the thread after the parent and w others. Creation i could be its own: it comes before the start. */
  predicate CouldCreate(lifetimes: seq<Lifetime>, creates: seq<Creation>, w: nat, i: nat) {
    && w + 1 < |lifetimes| && i < |creates| && lifetimes[w + 1].start.Some?
    && creates[i].ticket < lifetimes[w + 1].start.value
  }

  /** ... and names it. */
  predicate DoesName(lifetimes: seq<Lifetime>, creates: seq<Creation>, w: nat, i: nat) {
    CouldCreate(lifetimes, creates, w, i) && creates[i].address == lifetimes[w + 1].thread
  }

  /** m gives each worker a creation of its own, one that names it if there is any. */
  ghost predicate IsPairing(lifetimes: seq<Lifetime>, creates: seq<Creation>, m: map<nat, nat>) {
    && (forall w: nat :: w in m <==> w + 1 < |lifetimes|)
    && (forall w :: w in m ==> CouldCreate(lifetimes, creates, w, m[w]))
    && (forall v, w :: v in m && w in m && v != w ==> m[v] != m[w])
    && (forall w: nat, i: nat :: DoesName(lifetimes, creates, w, i) ==>
          w in m && DoesName(lifetimes, creates, w, m[w]))
  }

  /** There is one pairing and no other. */
  ghost predicate IsOnlyPairing(lifetimes: seq<Lifetime>, creates: seq<Creation>, m: map<nat, nat>) {
    IsPairing(lifetimes, creates, m) && forall other :: IsPairing(lifetimes, creates, other) ==> other == m
  }

  /** The join at each worker's position comes after its end. */
  predicate JoinsComeLater(lifetimes: seq<Lifetime>, joins: seq<nat>) {
    && |lifetimes| <= |joins| + 1
    && forall k :: 0 < k < |lifetimes| ==> lifetimes[k].end.Some? ==> lifetimes[k].end.value < joins[k - 1]
  }

  lemma WorkersByPosition(lifetimes: seq<Lifetime>, creates: seq<Creation>, w: nat, i: nat)
    requires AllAreRecorded(lifetimes)
    ensures IsComplete(lifetimes) && |WorkersOf(lifetimes)| == |lifetimes| - 1
    ensures Precedes(WorkersOf(lifetimes), creates, w, i) <==> CouldCreate(lifetimes, creates, w, i)
    ensures Names(WorkersOf(lifetimes), creates, w, i) <==> DoesName(lifetimes, creates, w, i)
  {
  }

  lemma MatchingIsPairing(lifetimes: seq<Lifetime>, creates: seq<Creation>, m: map<nat, nat>)
    requires AllAreRecorded(lifetimes) && IsComplete(lifetimes)
    ensures IsMatching(WorkersOf(lifetimes), creates, m) <==> IsPairing(lifetimes, creates, m)
  {
    forall w: nat, i: nat
      ensures Precedes(WorkersOf(lifetimes), creates, w, i) <==> CouldCreate(lifetimes, creates, w, i)
      ensures Names(WorkersOf(lifetimes), creates, w, i) <==> DoesName(lifetimes, creates, w, i) {
      WorkersByPosition(lifetimes, creates, w, i);
    }
  }

  lemma OnlyMatchingIsPairing(lifetimes: seq<Lifetime>, creates: seq<Creation>, m: map<nat, nat>)
    requires AllAreRecorded(lifetimes) && IsComplete(lifetimes)
    ensures IsOnlyMatching(WorkersOf(lifetimes), creates, m) <==> IsOnlyPairing(lifetimes, creates, m)
  {
    forall other ensures IsMatching(WorkersOf(lifetimes), creates, other) <==> IsPairing(lifetimes, creates, other) {
      MatchingIsPairing(lifetimes, creates, other);
    }
  }

  /** If evidence is given, it is for every thread but the first, which is the parent, and it holds the thread's own
      start and end and the join at its position, after the end. The creations can be paired in one way. */
  lemma EvidenceByTickets(lifetimes: seq<Lifetime>, creates: seq<Creation>, joins: seq<nat>,
                          handoffs: map<nat, Handoff>, pairs: map<nat, nat>)
    requires IsComplete(lifetimes) && JoinsFollow(WorkersOf(lifetimes), joins)
    requires HandsOff(lifetimes[0].thread, WorkersOf(lifetimes), joins, |WorkersOf(lifetimes)|, handoffs)
    requires IsOnlyMatching(WorkersOf(lifetimes), creates, pairs)
    ensures AllAreRecorded(lifetimes) && JoinsComeLater(lifetimes, joins) && IsOnlyPairing(lifetimes, creates, pairs)
    ensures forall t :: t in handoffs <==> exists k :: 0 < k < |lifetimes| && lifetimes[k].thread == t
    ensures forall k :: 0 < k < |lifetimes| ==>
      handoffs[lifetimes[k].thread] == Handoff(lifetimes[0].thread, lifetimes[k].thread, lifetimes[k].start.value,
        joins[k - 1], lifetimes[k].end.value)
  {
    var workers := WorkersOf(lifetimes);
    assert |workers| == |lifetimes| - 1;
    OnlyMatchingIsPairing(lifetimes, creates, pairs);
    forall k | 0 < k < |lifetimes|
      ensures workers[k - 1] == Worker(lifetimes[k].thread, lifetimes[k].start.value, lifetimes[k].end.value)
      ensures lifetimes[k].thread in handoffs && joins[k - 1] > lifetimes[k].end.value
      ensures handoffs[lifetimes[k].thread] == Handoff(lifetimes[0].thread, lifetimes[k].thread,
        lifetimes[k].start.value, joins[k - 1], lifetimes[k].end.value) {
    }
    forall t | t in handoffs ensures exists k :: 0 < k < |lifetimes| && lifetimes[k].thread == t {
      var i :| 0 <= i < |workers| && workers[i].thread == t;
      assert lifetimes[i + 1].thread == t;
    }
  }

  /** Evidence must be given if the threads are recorded in the order of their starts, the joins come later, no thread
      is named twice and the creations can be paired in one way. */
  lemma EvidenceIsDue(lifetimes: seq<Lifetime>, creates: seq<Creation>, joins: seq<nat>, m: map<nat, nat>)
    requires AllAreRecorded(lifetimes) && JoinsComeLater(lifetimes, joins) && IsOnlyPairing(lifetimes, creates, m)
    requires forall k, n :: 0 < k < n < |lifetimes| ==> lifetimes[k].start.value <= lifetimes[n].start.value
    requires forall k: nat, i: nat, j: nat ::
      DoesName(lifetimes, creates, k, i) && DoesName(lifetimes, creates, k, j) ==> i == j
    ensures IsComplete(lifetimes) && SortedByStart(WorkersOf(lifetimes)) && JoinsFollow(WorkersOf(lifetimes), joins)
    ensures |creates| >= |WorkersOf(lifetimes)| && NamesAreSingle(WorkersOf(lifetimes), creates)
    ensures HasOneMatching(WorkersOf(lifetimes), creates)
  {
    var workers := WorkersOf(lifetimes);
    OnlyMatchingIsPairing(lifetimes, creates, m);
    forall w: nat, i: nat ensures Names(workers, creates, w, i) <==> DoesName(lifetimes, creates, w, i) {
      WorkersByPosition(lifetimes, creates, w, i);
    }
    forall w: nat, i: nat, j: nat | Names(workers, creates, w, i) && Names(workers, creates, w, j) ensures i == j {
      assert DoesName(lifetimes, creates, w, i) && DoesName(lifetimes, creates, w, j);
    }
    EnoughCreations(|workers|, |creates|, m);
  }

  /** Distinct creations for n workers are at least n. */
  lemma {:induction false} EnoughCreations(n: nat, available: nat, m: map<nat, nat>)
    requires forall w: nat :: w < n ==> w in m && m[w] < available
    requires forall v: nat, w: nat :: v < w < n ==> m[v] != m[w]
    ensures n <= available
  {
    var used := set w: nat | w < n :: m[w];
    SizeOfUsed(n, m);
    BoundedSize(used, available);
  }

  lemma {:induction false} SizeOfUsed(n: nat, m: map<nat, nat>)
    requires forall w: nat :: w < n ==> w in m
    requires forall v: nat, w: nat :: v < w < n ==> m[v] != m[w]
    ensures |set w: nat | w < n :: m[w]| == n
  {
    if n > 0 {
      SizeOfUsed(n - 1, m);
      assert (set w: nat | w < n :: m[w]) == (set w: nat | w < n - 1 :: m[w]) + {m[n - 1]};
    }
  }

  lemma {:induction false} BoundedSize(s: set<nat>, bound: nat)
    requires forall x :: x in s ==> x < bound
    ensures |s| <= bound
  {
    if bound == 0 {
      assert s == {};
    } else {
      BoundedSize(s - {bound - 1}, bound - 1);
    }
  }
}

/** Matching workers with the creations and joins that their parent recorded. */
module Handoffs {
  import opened Events
  import opened Communication

  /** The first start and last end event of a thread, if it has them. */
  datatype Lifetime = Lifetime(thread: nat, start: Option<nat>, end: Option<nat>)

  datatype Worker = Worker(thread: nat, start: nat, end: nat)

  /** A recorded creation; the clone fallback puts the child's id into the address. */
  datatype Creation = Creation(ticket: nat, address: nat)

  /** Creation i comes before worker w starts. */
  predicate Precedes(workers: seq<Worker>, creates: seq<Creation>, w: nat, i: nat) {
    w < |workers| && i < |creates| && creates[i].ticket < workers[w].start
  }

  /** ... and names the worker. */
  predicate Names(workers: seq<Worker>, creates: seq<Creation>, w: nat, i: nat) {
    Precedes(workers, creates, w, i) && creates[i].address == workers[w].thread
  }

  ghost predicate IsInjective(m: map<nat, nat>) {
    forall v, w :: v in m && w in m && m[v] == m[w] ==> v == w
  }

  ghost predicate AllPrecede(workers: seq<Worker>, creates: seq<Creation>, m: map<nat, nat>) {
    forall w :: w in m ==> Precedes(workers, creates, w, m[w])
  }

  ghost predicate PrefersNamed(workers: seq<Worker>, creates: seq<Creation>, m: map<nat, nat>) {
    forall w, i {:trigger Names(workers, creates, w, i)} :: w in m && Names(workers, creates, w, i)
      ==> Names(workers, creates, w, m[w])
  }

  /** Every worker has a creation of its own that precedes its start, and one naming it if there is one. */
  ghost predicate IsMatching(workers: seq<Worker>, creates: seq<Creation>, m: map<nat, nat>) {
    && (forall w: nat :: w in m <==> w < |workers|)
    && AllPrecede(workers, creates, m) && IsInjective(m) && PrefersNamed(workers, creates, m)
  }

  /** There is exactly one way to match. */
  ghost predicate HasOneMatching(workers: seq<Worker>, creates: seq<Creation>) {
    exists m :: IsOnlyMatching(workers, creates, m)
  }

  ghost predicate IsOnlyMatching(workers: seq<Worker>, creates: seq<Creation>, m: map<nat, nat>) {
    IsMatching(workers, creates, m) && forall other :: IsMatching(workers, creates, other) ==> other == m
  }

  /** No two creations name the same worker. */
  ghost predicate NamesAreSingle(workers: seq<Worker>, creates: seq<Creation>) {
    forall w: nat, i: nat, j: nat :: Names(workers, creates, w, i) && Names(workers, creates, w, j) ==> i == j
  }

  ghost predicate SortedByStart(workers: seq<Worker>) {
    forall v, w :: 0 <= v < w < |workers| ==> workers[v].start <= workers[w].start
  }

  ghost predicate DistinctThreads(workers: seq<Worker>) {
    forall v, w :: 0 <= v < w < |workers| ==> workers[v].thread != workers[w].thread
  }

  lemma OneMember<T>(s: set<T>, x: T, y: T)
    requires |s| <= 1 && x in s && y in s
    ensures x == y
  {
    assert |s - {x}| == |s| - 1;
    assert s - {x} == {};
  }

  lemma TwoMembers<T>(s: set<T>) returns (x: T, y: T)
    requires |s| > 1
    ensures x in s && y in s && x != y
  {
    x :| x in s;
    assert |s - {x}| > 0;
    y :| y in s - {x};
  }

  ghost predicate InEveryMatching(workers: seq<Worker>, creates: seq<Creation>, w: nat, i: nat) {
    forall m :: IsMatching(workers, creates, m) && w in m ==> m[w] == i
  }

  /** The pairs so far are part of every matching. */
  ghost predicate IsForced(workers: seq<Worker>, creates: seq<Creation>, pairs: map<nat, nat>, used: set<nat>) {
    && AllPrecede(workers, creates, pairs) && IsInjective(pairs)
    && (forall w :: w in pairs ==> pairs[w] in used)
    && (forall i :: i in used ==> exists w :: w in pairs && pairs[w] == i)
    && (forall w :: w in pairs ==> InEveryMatching(workers, creates, w, pairs[w]))
  }

  lemma Assign(workers: seq<Worker>, creates: seq<Creation>, pairs: map<nat, nat>, used: set<nat>, w: nat, i: nat)
    requires IsForced(workers, creates, pairs, used) && w !in pairs && i !in used
    requires Precedes(workers, creates, w, i) && InEveryMatching(workers, creates, w, i)
    ensures IsForced(workers, creates, pairs[w := i], used + {i})
  {
    var pairs' := pairs[w := i];
    assert pairs'[w] == i;
    forall j | j in used + {i} ensures exists v :: v in pairs' && pairs'[v] == j {
      if j != i {
        var v :| v in pairs && pairs[v] == j;
        assert pairs'[v] == j;
      }
    }
  }

  /** A creation that names the worker belongs to it in every matching, if no other does. */
  lemma NamedIsForced(workers: seq<Worker>, creates: seq<Creation>, w: nat, i: nat)
    requires Names(workers, creates, w, i) && forall j: nat :: Names(workers, creates, w, j) ==> j == i
    ensures InEveryMatching(workers, creates, w, i)
  {
  }

  /** The only free creation before a worker's start belongs to it in every matching. */
  lemma RemainingIsForced(workers: seq<Worker>, creates: seq<Creation>, pairs: map<nat, nat>, used: set<nat>, w: nat,
                          i: nat)
    requires IsForced(workers, creates, pairs, used) && w !in pairs
    requires forall j: nat :: Precedes(workers, creates, w, j) && j !in used ==> j == i
    ensures InEveryMatching(workers, creates, w, i)
  {
    forall m | IsMatching(workers, creates, m) && w in m ensures m[w] == i {
      assert Precedes(workers, creates, w, m[w]);
      forall v | v in pairs ensures pairs[v] != m[w] {
        assert Precedes(workers, creates, v, pairs[v]) && InEveryMatching(workers, creates, v, pairs[v]);
      }
    }
  }

  ghost predicate NamedDone(workers: seq<Worker>, creates: seq<Creation>, n: nat, pairs: map<nat, nat>) {
    && (forall w :: w in pairs ==> w < n && Names(workers, creates, w, pairs[w]))
    && (forall w: nat, i: nat :: w < n && Names(workers, creates, w, i) ==> w in pairs && pairs[w] == i)
  }

  /** A creation names at most one worker. */
  lemma NamedIsFree(workers: seq<Worker>, creates: seq<Creation>, n: nat, pairs: map<nat, nat>, used: set<nat>, i: nat)
    requires DistinctThreads(workers) && IsForced(workers, creates, pairs, used)
      && NamedDone(workers, creates, n, pairs)
    requires Names(workers, creates, n, i)
    ensures i !in used
  {
    forall w | w in pairs ensures pairs[w] != i {
      assert Names(workers, creates, w, pairs[w]);
    }
  }

  /** The creations that name their worker; gives up on a worker with several. */
  method MatchNamed(workers: seq<Worker>, creates: seq<Creation>)
    returns (ok: bool, pairs: map<nat, nat>, used: set<nat>)
    requires DistinctThreads(workers)
    ensures ok <==> NamesAreSingle(workers, creates)
    ensures ok ==> IsForced(workers, creates, pairs, used) && NamedDone(workers, creates, |workers|, pairs)
  {
    ok, pairs, used := true, map[], {};
    for w := 0 to |workers|
      invariant IsForced(workers, creates, pairs, used) && NamedDone(workers, creates, w, pairs)
    {
      var direct := set i | 0 <= i < |creates| && i !in used && Names(workers, creates, w, i);
      forall i: nat | Names(workers, creates, w, i) ensures i in direct {
        NamedIsFree(workers, creates, w, pairs, used, i);
      }
      if |direct| > 1 {
        var i, j := TwoMembers(direct);
        assert Names(workers, creates, w, i) && Names(workers, creates, w, j);
        ok := false;
        return;
      }
      if |direct| == 1 {
        var i :| i in direct;
        forall j: nat | Names(workers, creates, w, j) ensures j == i {
          OneMember(direct, i, j);
        }
        NamedIsForced(workers, creates, w, i);
        Assign(workers, creates, pairs, used, w, i);
        pairs := pairs[w := i];
        used := used + {i};
      }
    }
  }

  /** Two free candidates for a worker leave two ways to match. */
  lemma TwoCandidates(workers: seq<Worker>, creates: seq<Creation>, pairs: map<nat, nat>, used: set<nat>, w: nat,
                      m: map<nat, nat>, d: nat)
    requires IsForced(workers, creates, pairs, used) && SortedByStart(workers) && IsMatching(workers, creates, m)
    requires w < |workers| && w !in pairs && forall v: nat :: v < w ==> v in pairs
    requires forall v: nat, i: nat :: Names(workers, creates, v, i) ==> v in pairs
    requires Precedes(workers, creates, w, d) && d !in used && d != m[w]
    ensures exists other :: IsMatching(workers, creates, other) && other != m
  {
    var c := m[w];
    assert Precedes(workers, creates, w, c);
    var other := m[w := d];
    if v :| v in m && m[v] == d {
      assert v in pairs ==> InEveryMatching(workers, creates, v, pairs[v]);
      assert workers[w].start <= workers[v].start;
      other := m[w := d][v := c];
    }
    assert other[w] == d;
    assert IsMatching(workers, creates, other);
  }

  /** If a worker has not exactly one free candidate, there is not exactly one way to match. */
  lemma NoSingleCandidate(workers: seq<Worker>, creates: seq<Creation>, pairs: map<nat, nat>, used: set<nat>, w: nat,
                          candidates: set<nat>)
    requires IsForced(workers, creates, pairs, used) && SortedByStart(workers)
    requires w < |workers| && w !in pairs && forall v: nat :: v < w ==> v in pairs
    requires forall v: nat, i: nat :: Names(workers, creates, v, i) ==> v in pairs
    requires forall i :: i in candidates <==> Precedes(workers, creates, w, i) && i !in used
    requires |candidates| != 1
    ensures !HasOneMatching(workers, creates)
  {
    forall m | IsMatching(workers, creates, m) ensures !IsOnlyMatching(workers, creates, m) {
      assert Precedes(workers, creates, w, m[w]);
      assert m[w] !in used by {
        forall v | v in pairs ensures pairs[v] != m[w] { assert InEveryMatching(workers, creates, v, pairs[v]); }
      }
      assert m[w] in candidates && |candidates - {m[w]}| == |candidates| - 1;
      var d :| d in candidates - {m[w]};
      TwoCandidates(workers, creates, pairs, used, w, m, d);
    }
  }

  /** The other workers, in the order of their start; gives up unless each has exactly one candidate. */
  method MatchRemaining(workers: seq<Worker>, creates: seq<Creation>, direct: map<nat, nat>, taken: set<nat>)
    returns (ok: bool, pairs: map<nat, nat>, ghost used: set<nat>)
    requires IsForced(workers, creates, direct, taken) && NamedDone(workers, creates, |workers|, direct)
    ensures !ok && SortedByStart(workers) ==> !HasOneMatching(workers, creates)
    ensures ok ==> IsForced(workers, creates, pairs, used)
    ensures ok ==> forall w: nat :: w < |workers| ==> w in pairs
    ensures ok ==> forall w :: w in direct ==> w in pairs && pairs[w] == direct[w]
  {
    ok, pairs := true, direct;
    var occupied := taken;
    used := occupied;
    for w := 0 to |workers|
      invariant IsForced(workers, creates, pairs, occupied)
      invariant forall v: nat :: v < w ==> v in pairs
      invariant forall v :: v in direct ==> v in pairs && pairs[v] == direct[v]
    {
      if w in pairs {
        continue;
      }
      var candidates := set i | 0 <= i < |creates| && i !in occupied && Precedes(workers, creates, w, i);
      if |candidates| != 1 {
        if SortedByStart(workers) { NoSingleCandidate(workers, creates, pairs, occupied, w, candidates); }
        ok := false;
        return;
      }
      var i :| i in candidates;
      forall j: nat | Precedes(workers, creates, w, j) && j !in occupied ensures j == i {
        OneMember(candidates, i, j);
      }
      RemainingIsForced(workers, creates, pairs, occupied, w, i);
      Assign(workers, creates, pairs, occupied, w, i);
      pairs := pairs[w := i];
      occupied := occupied + {i};
    }
    used := occupied;
  }

  lemma CompleteIsMatching(workers: seq<Worker>, creates: seq<Creation>, direct: map<nat, nat>, pairs: map<nat, nat>,
                           used: set<nat>)
    requires IsForced(workers, creates, pairs, used) && forall w: nat :: w < |workers| ==> w in pairs
    requires NamedDone(workers, creates, |workers|, direct)
    requires forall w :: w in direct ==> w in pairs && pairs[w] == direct[w]
    ensures IsMatching(workers, creates, pairs)
  {
    forall w | w in pairs ensures w < |workers| {
      assert Precedes(workers, creates, w, pairs[w]);
    }
  }

  lemma ForcedIsUnique(workers: seq<Worker>, creates: seq<Creation>, pairs: map<nat, nat>, used: set<nat>,
                       m: map<nat, nat>)
    requires IsForced(workers, creates, pairs, used) && IsMatching(workers, creates, pairs)
      && IsMatching(workers, creates, m)
    ensures m == pairs
  {
    forall w: nat ensures w in m <==> w in pairs {
    }
    forall w | w in pairs ensures m[w] == pairs[w] {
      assert InEveryMatching(workers, creates, w, pairs[w]);
    }
  }

  /** With workers in the order of their start, succeeds exactly if there is one way to match and no worker is
      named twice. */
  method MatchCreations(workers: seq<Worker>, creates: seq<Creation>) returns (ok: bool, pairs: map<nat, nat>)
    requires DistinctThreads(workers)
    ensures ok ==> IsOnlyMatching(workers, creates, pairs)
    ensures SortedByStart(workers) ==> (ok <==> NamesAreSingle(workers, creates) && HasOneMatching(workers, creates))
  {
    var direct, used;
    ok, direct, used := MatchNamed(workers, creates);
    pairs := direct;
    if ok {
      ghost var all;
      ok, pairs, all := MatchRemaining(workers, creates, direct, used);
      if ok {
        CompleteIsMatching(workers, creates, direct, pairs, all);
        forall m | IsMatching(workers, creates, m) ensures m == pairs {
          ForcedIsUnique(workers, creates, pairs, all, m);
        }
      }
    }
  }

  // ----- The handoffs of a trace -----

  ghost predicate DistinctLifetimes(lifetimes: seq<Lifetime>) {
    forall i, j :: 0 <= i < j < |lifetimes| ==> lifetimes[i].thread != lifetimes[j].thread
  }

  function WorkerOf(l: Lifetime): Worker
    requires l.start.Some? && l.end.Some?
  {
    Worker(l.thread, l.start.value, l.end.value)
  }

  predicate IsComplete(lifetimes: seq<Lifetime>) {
    |lifetimes| >= 2 && forall i :: 0 <= i < |lifetimes| ==> lifetimes[i].start.Some? && lifetimes[i].end.Some?
  }

  /** All threads but the first, which is the parent. */
  function WorkersOf(lifetimes: seq<Lifetime>): seq<Worker>
    requires IsComplete(lifetimes)
  {
    seq(|lifetimes| - 1, i requires 0 <= i < |lifetimes| - 1 => WorkerOf(lifetimes[i + 1]))
  }

  lemma WorkersAreDistinct(lifetimes: seq<Lifetime>)
    requires DistinctLifetimes(lifetimes) && IsComplete(lifetimes)
    ensures DistinctThreads(WorkersOf(lifetimes))
    ensures forall i :: 0 <= i < |WorkersOf(lifetimes)| ==> WorkersOf(lifetimes)[i].thread != lifetimes[0].thread
  {
    var workers := WorkersOf(lifetimes);
    forall v, w | 0 <= v < w < |workers| ensures workers[v].thread != workers[w].thread {
      assert lifetimes[v + 1].thread != lifetimes[w + 1].thread;
    }
  }

  ghost predicate HandsOff(parent: nat, workers: seq<Worker>, joins: seq<nat>, n: nat, handoffs: map<nat, Handoff>)
    requires n <= |workers| && n <= |joins|
  {
    && (forall t :: t in handoffs ==> exists i :: 0 <= i < n && workers[i].thread == t)
    && (forall i :: 0 <= i < n ==>
          && joins[i] > workers[i].end && workers[i].thread in handoffs
          && handoffs[workers[i].thread] == Handoff(parent, workers[i].thread, workers[i].start, joins[i],
            workers[i].end))
  }

  lemma NextHandoff(parent: nat, workers: seq<Worker>, joins: seq<nat>, n: nat, handoffs: map<nat, Handoff>)
    requires n < |workers| && n < |joins| && DistinctThreads(workers) && HandsOff(parent, workers, joins, n, handoffs)
    requires joins[n] > workers[n].end
    ensures var h := Handoff(parent, workers[n].thread, workers[n].start, joins[n], workers[n].end);
            HandsOff(parent, workers, joins, n + 1, handoffs[workers[n].thread := h])
  {
    forall i | 0 <= i < n ensures workers[i].thread != workers[n].thread {
    }
  }

  lemma HandoffsAreValid(parent: nat, workers: seq<Worker>, joins: seq<nat>, handoffs: map<nat, Handoff>)
    requires |workers| <= |joins| && HandsOff(parent, workers, joins, |workers|, handoffs)
    requires forall i :: 0 <= i < |workers| ==> workers[i].thread != parent
    ensures ValidHandoffs(handoffs)
  {
  }

  // ----- Joins are paired by position -----

  /** Every worker has a join of its own, after its end. */
  ghost predicate IsJoinPairing(workers: seq<Worker>, joins: seq<nat>, m: map<nat, nat>) {
    && (forall w: nat :: w in m <==> w < |workers|) && IsInjective(m)
    && forall w :: w in m ==> w < |workers| && m[w] < |joins| && joins[m[w]] > workers[w].end
  }

  function ByPosition(n: nat): (m: map<nat, nat>)
    ensures forall w: nat :: w in m <==> w < n
    ensures forall w :: w in m ==> m[w] == w
  {
    if n == 0 then map[] else ByPosition(n - 1)[n - 1 := n - 1]
  }

  ghost predicate JoinsFollow(workers: seq<Worker>, joins: seq<nat>) {
    |workers| <= |joins| && forall i :: 0 <= i < |workers| ==> joins[i] > workers[i].end
  }

  /** There is a join for each worker and no other, and each worker ends after its predecessor was joined. */
  ghost predicate JoinsAlternate(workers: seq<Worker>, joins: seq<nat>) {
    |joins| == |workers| && forall i :: 0 < i < |workers| ==> joins[i - 1] <= workers[i].end
  }

  ghost predicate SortedTickets(tickets: seq<nat>) {
    forall i, j :: 0 <= i < j < |tickets| ==> tickets[i] <= tickets[j]
  }

  lemma {:induction false} LastJoinsAreForced(workers: seq<Worker>, joins: seq<nat>, m: map<nat, nat>, w: nat)
    requires SortedTickets(joins) && JoinsAlternate(workers, joins) && IsJoinPairing(workers, joins, m) && w < |workers|
    ensures m[w] == w
    decreases |workers| - w
  {
    assert joins[m[w]] > workers[w].end;
    forall j: nat | j < w ensures joins[j] <= workers[w].end { assert joins[w - 1] <= workers[w].end; }
    if m[w] > w { LastJoinsAreForced(workers, joins, m, m[w]); }
  }

  /** A spare join can replace that of the last worker. */
  lemma SpareJoin(workers: seq<Worker>, joins: seq<nat>) returns (m: map<nat, nat>)
    requires SortedTickets(joins) && JoinsFollow(workers, joins) && |joins| > |workers| > 0
    ensures IsJoinPairing(workers, joins, m) && m != ByPosition(|workers|)
  {
    var n := |workers|;
    m := ByPosition(n)[n - 1 := n];
    assert joins[n] >= joins[n - 1];
    assert m[n - 1] != ByPosition(n)[n - 1];
  }

  /** Neighbouring workers can exchange their joins if the earlier join also follows the later end. */
  lemma CrossedJoins(workers: seq<Worker>, joins: seq<nat>, i: nat) returns (m: map<nat, nat>)
    requires SortedTickets(joins) && JoinsFollow(workers, joins) && 0 < i < |workers| && joins[i - 1] > workers[i].end
    ensures IsJoinPairing(workers, joins, m) && m != ByPosition(|workers|)
  {
    m := ByPosition(|workers|)[i := i - 1][i - 1 := i];
    assert joins[i] >= joins[i - 1];
    assert m[i] != ByPosition(|workers|)[i];
  }

  /** Pairing joins by position is right if it fits, and the only right way exactly if the joins alternate with
      the ends. */
  lemma JoinPairingIsUnique(workers: seq<Worker>, joins: seq<nat>)
    requires SortedTickets(joins) && JoinsFollow(workers, joins) && workers != []
    ensures IsJoinPairing(workers, joins, ByPosition(|workers|))
    ensures (forall m :: IsJoinPairing(workers, joins, m) ==> m == ByPosition(|workers|))
      <==> JoinsAlternate(workers, joins)
  {
    if JoinsAlternate(workers, joins) {
      forall m | IsJoinPairing(workers, joins, m) ensures m == ByPosition(|workers|) {
        forall w: nat | w < |workers| ensures m[w] == w { LastJoinsAreForced(workers, joins, m, w); }
      }
    } else {
      var m;
      if |joins| > |workers| {
        m := SpareJoin(workers, joins);
      } else {
        var i :| 0 < i < |workers| && joins[i - 1] > workers[i].end;
        m := CrossedJoins(workers, joins, i);
      }
    }
  }

  lemma OnlyByName(workers: seq<Worker>, creates: seq<Creation>)
    requires workers == [Worker(1, 10, 30), Worker(2, 11, 25)] && creates == [Creation(5, 1), Creation(6, 2)]
    ensures NamesAreSingle(workers, creates) && IsOnlyMatching(workers, creates, map[0 := 0, 1 := 1])
  {
    var m := map[0 := 0, 1 := 1];
    assert Names(workers, creates, 0, 0) && Names(workers, creates, 1, 1);
    forall other | IsMatching(workers, creates, other) ensures other == m {
      assert 0 in other && 1 in other;
    }
  }

  /** The code does not ask for that: ends at 30 and 25 with joins at 40 and 50 can be paired both ways, although
      the creations can be matched in one way only. */
  lemma JoinsMayBeCrossed(workers: seq<Worker>, creates: seq<Creation>, joins: seq<nat>)
    requires workers == [Worker(1, 10, 30), Worker(2, 11, 25)] && joins == [40, 50]
    requires creates == [Creation(5, 1), Creation(6, 2)]
    ensures NamesAreSingle(workers, creates) && HasOneMatching(workers, creates)
    ensures JoinsFollow(workers, joins) && !JoinsAlternate(workers, joins)
    ensures IsJoinPairing(workers, joins, map[0 := 1, 1 := 0])
  {
    assert !(joins[0] <= workers[1].end);
    OnlyByName(workers, creates);
  }

  // ----- What the evidence says about accesses -----

  /** The ticket of the creation that worker w was matched with. */
  function CreationTicket(creates: seq<Creation>, pairs: map<nat, nat>, w: nat): nat {
    if w in pairs && pairs[w] < |creates| then creates[pairs[w]].ticket else 0
  }

  /** Plain accesses of worker w and of its parent. */
  predicate ArePlainOf(workers: seq<Worker>, parent: nat, w: nat, a: Access, b: Access) {
    w < |workers| && a.thread == workers[w].thread && b.thread == parent && a.IsPlain() && b.IsPlain()
  }

  /** The parent's access b comes after the join, and the worker's access a before the end. */
  predicate IsJoinedBefore(workers: seq<Worker>, joins: seq<nat>, w: nat, a: Access, b: Access) {
    w < |workers| && w < |joins| && b.ticket > joins[w] && a.ticket <= workers[w].end
  }

  /** Each pair that the evidence drops is ordered by the worker's creation or by its join. */
  ghost predicate DroppedAreOrdered(parent: nat, workers: seq<Worker>, creates: seq<Creation>, joins: seq<nat>,
                                    pairs: map<nat, nat>, handoffs: map<nat, Handoff>, accesses: seq<Access>) {
    forall w: nat, a, b :: a in accesses && b in accesses && ArePlainOf(workers, parent, w, a, b) ==>
      IsHandoff(handoffs, a, b) ==>
        b.ticket < CreationTicket(creates, pairs, w) || IsJoinedBefore(workers, joins, w, a, b)
  }

  /** The parent does not access memory between a worker's creation and its start, unless it has joined it already. */
  ghost predicate NoneBeforeStart(parent: nat, workers: seq<Worker>, creates: seq<Creation>, joins: seq<nat>,
                                  pairs: map<nat, nat>, accesses: seq<Access>) {
    forall w: nat, a, b :: a in accesses && b in accesses && ArePlainOf(workers, parent, w, a, b) ==>
      CreationTicket(creates, pairs, w) <= b.ticket < workers[w].start ==> IsJoinedBefore(workers, joins, w, a, b)
  }

  /** The evidence drops what comes before the worker's start or after its join. */
  lemma DroppedByTicket(parent: nat, workers: seq<Worker>, joins: seq<nat>, handoffs: map<nat, Handoff>, w: nat,
                        a: Access, b: Access)
    requires ValidHandoffs(handoffs) && |workers| <= |joins|
    requires HandsOff(parent, workers, joins, |workers|, handoffs) && ArePlainOf(workers, parent, w, a, b)
    ensures IsHandoff(handoffs, a, b) <==> b.ticket < workers[w].start || IsJoinedBefore(workers, joins, w, a, b)
  {
    assert workers[w].thread in handoffs;
  }

  /** All dropped pairs are ordered, exactly if the parent makes no access between a creation and the start. */
  lemma DroppedAreOrderedExactly(parent: nat, workers: seq<Worker>, creates: seq<Creation>, joins: seq<nat>,
                                 pairs: map<nat, nat>, handoffs: map<nat, Handoff>, accesses: seq<Access>)
    requires ValidHandoffs(handoffs) && |workers| <= |joins|
    requires HandsOff(parent, workers, joins, |workers|, handoffs) && IsMatching(workers, creates, pairs)
    ensures DroppedAreOrdered(parent, workers, creates, joins, pairs, handoffs, accesses)
       <==> NoneBeforeStart(parent, workers, creates, joins, pairs, accesses)
  {
    forall w: nat, a, b | a in accesses && b in accesses && ArePlainOf(workers, parent, w, a, b)
      ensures IsHandoff(handoffs, a, b) <==> b.ticket < workers[w].start || IsJoinedBefore(workers, joins, w, a, b)
      ensures CreationTicket(creates, pairs, w) < workers[w].start {
      DroppedByTicket(parent, workers, joins, handoffs, w, a, b);
      assert Precedes(workers, creates, w, pairs[w]);
    }
  }

  /** Worker 2 is created at 5 and starts at 10. The store of its parent at 7 follows the creation, yet its pair with
      the worker's load of the same bytes is dropped. */
  lemma StoresBeforeStartAreDropped(workers: seq<Worker>, creates: seq<Creation>, joins: seq<nat>,
                                    handoffs: map<nat, Handoff>, load: Access, store: Access)
    requires workers == [Worker(2, 10, 30)] && creates == [Creation(5, 2)] && joins == [40]
    requires handoffs == map[2 := Handoff(1, 2, 10, 40, 30)]
    requires load == Access(0, 2, 20, 64, 8, 0, LOAD, false, None)
    requires store == Access(1, 1, 7, 64, 8, 0, STORE, false, None)
    ensures HandsOff(1, workers, joins, 1, handoffs) && IsMatching(workers, creates, map[0 := 0])
    ensures IsHandoff(handoffs, load, store) && !Communicates(handoffs, load, store)
    ensures !DroppedAreOrdered(1, workers, creates, joins, map[0 := 0], handoffs, [load, store])
  {
    assert load in [load, store] && store in [load, store] && ArePlainOf(workers, 1, 0, load, store);
    assert 0 < |workers| && workers[0].thread == 2;
  }

  /** Evidence for every worker, or none at all: it is given exactly if all lifetimes are complete, creations and
      joins suffice, the creations can be matched in one way, and each worker ends before the join at its position. */
  method ThreadHandoffs(lifetimes: seq<Lifetime>, creates: seq<Creation>, joins: seq<nat>)
    returns (handoffs: map<nat, Handoff>, ghost pairs: map<nat, nat>)
    requires DistinctLifetimes(lifetimes)
    ensures ValidHandoffs(handoffs)
    ensures handoffs != map[] ==>
              && IsComplete(lifetimes) && JoinsFollow(WorkersOf(lifetimes), joins)
              && HandsOff(lifetimes[0].thread, WorkersOf(lifetimes), joins, |WorkersOf(lifetimes)|, handoffs)
              && IsOnlyMatching(WorkersOf(lifetimes), creates, pairs)
    ensures IsComplete(lifetimes) && SortedByStart(WorkersOf(lifetimes)) && JoinsFollow(WorkersOf(lifetimes), joins)
            && |creates| >= |WorkersOf(lifetimes)| && NamesAreSingle(WorkersOf(lifetimes), creates)
            && HasOneMatching(WorkersOf(lifetimes), creates)
            ==> handoffs != map[]
  {
    handoffs, pairs := map[], map[];
    if !IsComplete(lifetimes) {
      return;
    }
    var workers := WorkersOf(lifetimes);
    if |creates| < |workers| || |joins| < |workers| {
      return;
    }
    WorkersAreDistinct(lifetimes);
    var ok, matching := MatchCreations(workers, creates);
    if !ok {
      return;
    }
    pairs := matching;
    var parent := lifetimes[0].thread;
    for i := 0 to |workers|
      invariant HandsOff(parent, workers, joins, i, handoffs)
    {
      assert Precedes(workers, creates, i, matching[i]);
      if creates[matching[i]].ticket >= workers[i].start || joins[i] <= workers[i].end {
        return map[], pairs;
      }
      NextHandoff(parent, workers, joins, i, handoffs);
      handoffs := handoffs[workers[i].thread := Handoff(parent, workers[i].thread, workers[i].start, joins[i],
        workers[i].end)];
    }
    HandoffsAreValid(parent, workers, joins, handoffs);
    assert workers[0].thread in handoffs;
  }
}

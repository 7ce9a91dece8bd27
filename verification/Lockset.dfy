/** Must-locksets: which locks are held at an event on every path of its thread role. */
module Lockset {
  import opened Events

  datatype AddressKind = GLOBAL | HEAP | STACK | TLS | LOADED | UNKNOWN

  datatype AbstractAddress = AbstractAddress(kind: AddressKind, base: Option<string>, offset: Option<int>,
    indirect: bool)

  datatype Lock = Lock(kind: AddressKind, base: string, offset: Option<int>)

  datatype Effect =
    | LOAD | STORE | ATOMIC_RMW | ACQUIRE | RELEASE
    | OPAQUE_CALL | SYSCALL | UNKNOWN_MEMORY_EFFECT | OTHER

  datatype Event = Event(id: nat, role: Option<nat>, effect: Effect, address: Option<AbstractAddress>)

  /** Only an address that names the same lock on every path is a lock. */
  function ConcreteLock(address: Option<AbstractAddress>): Option<Lock> {
    if address.None? || address.value.kind.LOADED? || address.value.kind.UNKNOWN? then None
    else if address.value.base.None? || address.value.indirect then None
    else Some(Lock(address.value.kind, address.value.base.value, address.value.offset))
  }

  predicate IsUnknownBoundary(effect: Effect) {
    effect.OPAQUE_CALL? || effect.SYSCALL? || effect.UNKNOWN_MEMORY_EFFECT?
  }

  function Transfer(e: Event, held: set<Lock>): set<Lock> {
    var key := ConcreteLock(e.address);
    if e.effect == ACQUIRE then (if key.Some? then held + {key.value} else {})
    else if e.effect == RELEASE then (if key.Some? then held - {key.value} else {})
    else if IsUnknownBoundary(e.effect) then {}
    else held
  }

  // ----- Locks held along a path -----

  predicate Acquires(e: Event, l: Lock) {
    e.effect == ACQUIRE && ConcreteLock(e.address) == Some(l)
  }

  /** After e nothing is known about l any more. */
  predicate Drops(e: Event, l: Lock) {
    || (e.effect == ACQUIRE && ConcreteLock(e.address) == None)
    || (e.effect == RELEASE && (ConcreteLock(e.address) == None || ConcreteLock(e.address) == Some(l)))
    || IsUnknownBoundary(e.effect)
  }

  /** l was acquired before the last event of p and not dropped since. */
  ghost predicate HeldAlong(p: seq<Event>, l: Lock) {
    exists i :: 0 <= i < |p| - 1 && Acquires(p[i], l) && forall j :: i < j < |p| - 1 ==> !Drops(p[j], l)
  }

  lemma TransferIsPointwise(e: Event, held: set<Lock>, l: Lock)
    ensures l in Transfer(e, held) <==> Acquires(e, l) || (l in held && !Drops(e, l))
  {
  }

  lemma HeldAlongStep(p: seq<Event>, e: Event, l: Lock)
    requires p != []
    ensures HeldAlong(p + [e], l) <==> Acquires(p[|p| - 1], l) || (HeldAlong(p, l) && !Drops(p[|p| - 1], l))
  {
    var n := |p| - 1;
    var q := p + [e];
    if i :| 0 <= i < |q| - 1 && Acquires(q[i], l) && forall j :: i < j < |q| - 1 ==> !Drops(q[j], l) {
      if i < n {
        assert !Drops(q[n], l);
        forall j | i < j < n ensures !Drops(p[j], l) { assert q[j] == p[j]; }
      }
    }
    if Acquires(p[n], l) { assert Acquires(q[n], l); }
    if i :| 0 <= i < n && Acquires(p[i], l) && forall j :: i < j < n ==> !Drops(p[j], l) {
      if !Drops(p[n], l) { assert Acquires(q[i], l); }
    }
  }

  // ----- Paths of one role -----

  type Order = set<(Event, Event)>

  ghost predicate IsPath(roots: set<Event>, order: Order, p: seq<Event>) {
    p != [] && p[0] in roots && forall i :: 0 <= i < |p| - 1 ==> (p[i], p[i + 1]) in order
  }

  ghost predicate LeadsTo(roots: set<Event>, order: Order, p: seq<Event>, e: Event) {
    IsPath(roots, order, p) && p[|p| - 1] == e
  }

  lemma ExtendPath(roots: set<Event>, order: Order, p: seq<Event>, e: Event, s: Event)
    requires LeadsTo(roots, order, p, e) && (e, s) in order
    ensures LeadsTo(roots, order, p + [s], s)
  {
  }

  ghost predicate IsReached(roots: set<Event>, order: Order, e: Event) {
    exists p :: LeadsTo(roots, order, p, e)
  }

  ghost predicate HeldOnAllPaths(roots: set<Event>, order: Order, e: Event, l: Lock) {
    forall p :: LeadsTo(roots, order, p, e) ==> HeldAlong(p, l)
  }

  /** The result: the reached events, each with exactly the locks held along all paths that lead to it. */
  ghost predicate IsMeetOverPaths(roots: set<Event>, order: Order, ins: map<Event, set<Lock>>) {
    && (forall e :: e in ins <==> IsReached(roots, order, e))
    && (forall e, l :: e in ins ==> (l in ins[e] <==> HeldOnAllPaths(roots, order, e, l)))
  }

  // ----- The worklist -----

  ghost predicate IsMissing(roots: set<Event>, order: Order, e: Event, l: Lock) {
    exists p :: LeadsTo(roots, order, p, e) && !HeldAlong(p, l)
  }

  /** Whatever is missing from a set is missing along some path. */
  ghost predicate IsJustified(roots: set<Event>, order: Order, ins: map<Event, set<Lock>>) {
    && (forall e :: e in ins ==> IsReached(roots, order, e))
    && (forall e, l :: e in ins && l !in ins[e] ==> IsMissing(roots, order, e, l))
  }

  ghost predicate EdgeIsStable(ins: map<Event, set<Lock>>, e: Event, s: Event) {
    e in ins ==> s in ins && ins[s] <= Transfer(e, ins[e])
  }

  /** Every event outside the worklist has passed its locks on. */
  ghost predicate IsStable(order: Order, ins: map<Event, set<Lock>>, work: seq<Event>) {
    forall e, s :: (e, s) in order && e !in work ==> EdgeIsStable(ins, e, s)
  }

  lemma {:induction false} StableIsSafe(roots: set<Event>, order: Order, ins: map<Event, set<Lock>>, p: seq<Event>,
                                        l: Lock)
    requires IsStable(order, ins, []) && IsPath(roots, order, p)
    requires forall r :: r in roots ==> r in ins && ins[r] == {}
    ensures p[|p| - 1] in ins && (l in ins[p[|p| - 1]] ==> HeldAlong(p, l))
  {
    if |p| > 1 {
      var n := |p| - 2;
      var q := p[..|p| - 1];
      StableIsSafe(roots, order, ins, q, l);
      assert (p[n], p[n + 1]) in order && EdgeIsStable(ins, p[n], p[n + 1]);
      TransferIsPointwise(p[n], ins[p[n]], l);
      HeldAlongStep(q, p[n + 1], l);
      assert p == q + [p[n + 1]];
    }
  }

  lemma LockIsExact(roots: set<Event>, order: Order, ins: map<Event, set<Lock>>, e: Event, l: Lock)
    requires IsStable(order, ins, []) && IsJustified(roots, order, ins) && e in ins
    requires forall r :: r in roots ==> r in ins && ins[r] == {}
    ensures l in ins[e] <==> HeldOnAllPaths(roots, order, e, l)
  {
    if l in ins[e] {
      forall p | LeadsTo(roots, order, p, e) ensures HeldAlong(p, l) {
        StableIsSafe(roots, order, ins, p, l);
      }
    } else {
      assert IsMissing(roots, order, e, l);
    }
  }

  lemma ReachedIsKnown(roots: set<Event>, order: Order, ins: map<Event, set<Lock>>, e: Event)
    requires IsStable(order, ins, []) && IsReached(roots, order, e)
    requires forall r :: r in roots ==> r in ins && ins[r] == {}
    ensures e in ins
  {
    var p :| LeadsTo(roots, order, p, e);
    StableIsSafe(roots, order, ins, p, Lock(GLOBAL, "", None));
  }

  lemma StableAndJustified(roots: set<Event>, order: Order, ins: map<Event, set<Lock>>)
    requires IsStable(order, ins, []) && IsJustified(roots, order, ins)
    requires forall r :: r in roots ==> r in ins && ins[r] == {}
    ensures IsMeetOverPaths(roots, order, ins)
  {
    forall e | IsReached(roots, order, e) ensures e in ins {
      ReachedIsKnown(roots, order, ins, e);
    }
    forall e, l | e in ins ensures l in ins[e] <==> HeldOnAllPaths(roots, order, e, l) {
      LockIsExact(roots, order, ins, e, l);
    }
  }

  /** out is what e passes on from a set whose missing locks are justified. */
  ghost predicate PassesOn(roots: set<Event>, order: Order, e: Event, held: set<Lock>, out: set<Lock>) {
    out == Transfer(e, held) && forall m :: m !in held ==> IsMissing(roots, order, e, m)
  }

  /** Passing e's locks on to s keeps every missing lock justified. */
  lemma PassOnIsJustified(roots: set<Event>, order: Order, e: Event, s: Event, held: set<Lock>, out: set<Lock>,
                          l: Lock)
    requires (e, s) in order
    requires PassesOn(roots, order, e, held, out)
    requires IsReached(roots, order, e) && l !in out
    ensures IsMissing(roots, order, s, l)
  {
    TransferIsPointwise(e, held, l);
    var p :| LeadsTo(roots, order, p, e) && (l !in held ==> !HeldAlong(p, l));
    ExtendPath(roots, order, p, e, s);
    HeldAlongStep(p, s, l);
  }

  /** What the sets still allow; it only ever shrinks, once an event is reached. */
  ghost function Allowed(ins: map<Event, set<Lock>>): set<(Event, Lock)> {
    set e, l | e in ins && l in ins[e] :: (e, l)
  }

  ghost function Unreached(nodes: set<Event>, ins: map<Event, set<Lock>>): set<Event> {
    nodes - ins.Keys
  }

  /** Either nothing changed, or the sets did. */
  ghost predicate Progress(nodes: set<Event>, before: map<Event, set<Lock>>, work: seq<Event>,
                           after: map<Event, set<Lock>>, work': seq<Event>) {
    || (after == before && work' == work)
    || Unreached(nodes, after) < Unreached(nodes, before)
    || (Unreached(nodes, after) == Unreached(nodes, before) && Allowed(after) < Allowed(before))
  }

  /** The sets of the successors in done are stable for what e passes on; other events are stable or queued. */
  ghost predicate PassingOn(order: Order, ins: map<Event, set<Lock>>, work: seq<Event>, e: Event, out: set<Lock>,
                            done: set<Event>) {
    && (forall s :: s in done ==> s in ins && ins[s] <= out)
    && (forall a, s :: (a, s) in order && a !in work && a != e ==> EdgeIsStable(ins, a, s))
  }

  function Candidate(ins: map<Event, set<Lock>>, s: Event, out: set<Lock>): set<Lock> {
    if s in ins then ins[s] * out else out
  }

  lemma PassOnStep(order: Order, ins: map<Event, set<Lock>>, work: seq<Event>, e: Event, out: set<Lock>,
                   done: set<Event>, s: Event)
    requires PassingOn(order, ins, work, e, out, done)
    ensures PassingOn(order, ins[s := Candidate(ins, s, out)], work + [s], e, out, done + {s})
    ensures s in ins && ins[s] == Candidate(ins, s, out) ==> PassingOn(order, ins, work, e, out, done + {s})
  {
    var ins', work' := ins[s := Candidate(ins, s, out)], work + [s];
    forall a, t | (a, t) in order && a !in work' && a != e ensures EdgeIsStable(ins', a, t) {
      assert (work + [s])[|work|] == s;
      assert a !in work && EdgeIsStable(ins, a, t);
    }
  }

  lemma JustifiedStep(roots: set<Event>, order: Order, ins: map<Event, set<Lock>>, e: Event, held: set<Lock>, s: Event)
    requires IsJustified(roots, order, ins) && (e, s) in order && IsReached(roots, order, e)
    requires PassesOn(roots, order, e, held, Transfer(e, held))
    ensures IsJustified(roots, order, ins[s := Candidate(ins, s, Transfer(e, held))])
  {
    var p :| LeadsTo(roots, order, p, e);
    ExtendPath(roots, order, p, e, s);
    forall l | l !in Candidate(ins, s, Transfer(e, held)) ensures IsMissing(roots, order, s, l) {
      if l !in Transfer(e, held) {
        PassOnIsJustified(roots, order, e, s, held, Transfer(e, held), l);
      }
    }
  }

  lemma ProgressStep(nodes: set<Event>, before: map<Event, set<Lock>>, work: seq<Event>, ins: map<Event, set<Lock>>,
                     work': seq<Event>, s: Event, out: set<Lock>)
    requires Progress(nodes, before, work, ins, work') && s in nodes
    requires !(s in ins && ins[s] == Candidate(ins, s, out))
    ensures Progress(nodes, before, work, ins[s := Candidate(ins, s, out)], work' + [s])
  {
    var ins' := ins[s := Candidate(ins, s, out)];
    if s in ins {
      assert ins'.Keys == ins.Keys;
      SmallerSet(ins, s, Candidate(ins, s, out));
    } else {
      assert ins'.Keys == ins.Keys + {s};
      assert s in Unreached(nodes, ins) && s !in Unreached(nodes, ins');
    }
  }

  lemma SmallerSet(ins: map<Event, set<Lock>>, s: Event, smaller: set<Lock>)
    requires s in ins && smaller < ins[s]
    ensures Allowed(ins[s := smaller]) < Allowed(ins)
  {
    var l :| l in ins[s] && l !in smaller;
    assert (s, l) in Allowed(ins) && (s, l) !in Allowed(ins[s := smaller]);
  }

  ghost predicate RootsAreEmpty(roots: set<Event>, ins: map<Event, set<Lock>>) {
    forall r :: r in roots ==> r in ins && ins[r] == {}
  }

  lemma PassedOn(order: Order, ins: map<Event, set<Lock>>, work: seq<Event>, e: Event, held: set<Lock>,
                 done: set<Event>)
    requires PassingOn(order, ins, work, e, Transfer(e, held), done)
    requires forall s :: (e, s) in order ==> s in done
    requires e in work || (e in ins && ins[e] == held)
    ensures IsStable(order, ins, work)
  {
    forall a, s | (a, s) in order && a !in work ensures EdgeIsStable(ins, a, s) {
    }
  }

  /** The invariant of passing e's locks on: the successors in done have been served. */
  ghost predicate Serving(nodes: set<Event>, roots: set<Event>, order: Order, ins0: map<Event, set<Lock>>,
                          work0: seq<Event>, e: Event, ins: map<Event, set<Lock>>, work: seq<Event>, done: set<Event>)
  {
    && e in ins0 && ins.Keys <= nodes && IsJustified(roots, order, ins) && RootsAreEmpty(roots, ins)
    && PassingOn(order, ins, work, e, Transfer(e, ins0[e]), done) && Progress(nodes, ins0, work0, ins, work)
    && (e in work || (e in ins && ins[e] == ins0[e]))
    && (forall a :: a in work ==> a in ins)
  }

  /** The plain parts of the invariant survive a change of s's set. */
  lemma ChangeKeepsShape(nodes: set<Event>, roots: set<Event>, ins: map<Event, set<Lock>>, work: seq<Event>, e: Event,
                         held: set<Lock>, s: Event, out: set<Lock>)
    requires ins.Keys <= nodes && s in nodes && RootsAreEmpty(roots, ins) && forall a :: a in work ==> a in ins
    requires e in work || (e in ins && ins[e] == held)
    ensures ins[s := Candidate(ins, s, out)].Keys <= nodes && RootsAreEmpty(roots, ins[s := Candidate(ins, s, out)])
    ensures e in work + [s] || (e in ins[s := Candidate(ins, s, out)] && ins[s := Candidate(ins, s, out)][e] == held)
    ensures forall a :: a in work + [s] ==> a in ins[s := Candidate(ins, s, out)]
  {
    assert (work + [s])[|work|] == s;
  }

  lemma ServeChanged(nodes: set<Event>, roots: set<Event>, order: Order, ins0: map<Event, set<Lock>>,
                     work0: seq<Event>, e: Event, ins: map<Event, set<Lock>>, work: seq<Event>, done: set<Event>,
                     s: Event)
    requires e in ins0 && Serving(nodes, roots, order, ins0, work0, e, ins, work, done)
    requires (e, s) in order && s in nodes && IsJustified(roots, order, ins0)
    requires !(s in ins && ins[s] == Candidate(ins, s, Transfer(e, ins0[e])))
    ensures Serving(nodes, roots, order, ins0, work0, e, ins[s := Candidate(ins, s, Transfer(e, ins0[e]))], work + [s],
      done + {s})
  {
    var out := Transfer(e, ins0[e]);
    assert PassesOn(roots, order, e, ins0[e], out);
    PassOnStep(order, ins, work, e, out, done, s);
    JustifiedStep(roots, order, ins, e, ins0[e], s);
    ProgressStep(nodes, ins0, work0, ins, work, s, out);
    ChangeKeepsShape(nodes, roots, ins, work, e, ins0[e], s, out);
  }

  lemma ServeSame(nodes: set<Event>, roots: set<Event>, order: Order, ins0: map<Event, set<Lock>>, work0: seq<Event>,
                  e: Event, ins: map<Event, set<Lock>>, work: seq<Event>, done: set<Event>, s: Event)
    requires e in ins0 && Serving(nodes, roots, order, ins0, work0, e, ins, work, done)
    requires s in ins && ins[s] == Candidate(ins, s, Transfer(e, ins0[e]))
    ensures Serving(nodes, roots, order, ins0, work0, e, ins, work, done + {s})
  {
    PassOnStep(order, ins, work, e, Transfer(e, ins0[e]), done, s);
  }

  lemma ServeStart(nodes: set<Event>, roots: set<Event>, order: Order, ins0: map<Event, set<Lock>>, work0: seq<Event>,
                   e: Event)
    requires e in ins0 && ins0.Keys <= nodes && IsJustified(roots, order, ins0) && RootsAreEmpty(roots, ins0)
    requires IsStable(order, ins0, [e] + work0) && forall a :: a in work0 ==> a in ins0
    ensures Serving(nodes, roots, order, ins0, work0, e, ins0, work0, {})
  {
  }

  lemma ServeEnd(nodes: set<Event>, roots: set<Event>, order: Order, ins0: map<Event, set<Lock>>, work0: seq<Event>,
                 e: Event, ins: map<Event, set<Lock>>, work: seq<Event>, done: set<Event>)
    requires e in ins0 && Serving(nodes, roots, order, ins0, work0, e, ins, work, done)
    requires forall s :: (e, s) in order ==> s in done
    ensures WorkInv(nodes, roots, order, ins, work) && Progress(nodes, ins0, work0, ins, work)
  {
    PassedOn(order, ins, work, e, ins0[e], done);
  }

  ghost predicate WorkInv(nodes: set<Event>, roots: set<Event>, order: Order, ins: map<Event, set<Lock>>,
                          work: seq<Event>) {
    && ins.Keys <= nodes && IsJustified(roots, order, ins) && IsStable(order, ins, work) && RootsAreEmpty(roots, ins)
    && (forall a :: a in work ==> a in ins)
  }

  /** Passes the locks on to one successor, which is queued if that changes anything for it. */
  method Serve(ghost nodes: set<Event>, ghost roots: set<Event>, ghost order: Order, ghost ins0: map<Event, set<Lock>>,
               ghost work0: seq<Event>, ghost e: Event, out: set<Lock>, ins: map<Event, set<Lock>>, work: seq<Event>,
               ghost done: set<Event>, s: Event)
    returns (ins': map<Event, set<Lock>>, work': seq<Event>)
    requires e in ins0 && IsJustified(roots, order, ins0) && out == Transfer(e, ins0[e])
    requires Serving(nodes, roots, order, ins0, work0, e, ins, work, done) && (e, s) in order && s in nodes
    ensures Serving(nodes, roots, order, ins0, work0, e, ins', work', done + {s})
  {
    if s in ins && ins[s] == Candidate(ins, s, out) {
      ServeSame(nodes, roots, order, ins0, work0, e, ins, work, done, s);
      ins', work' := ins, work;
    } else {
      ServeChanged(nodes, roots, order, ins0, work0, e, ins, work, done, s);
      ins' := ins[s := Candidate(ins, s, out)];
      work' := work + [s];
    }
  }

  /** Passes the locks that e leaves on to its successors, and queues those whose set changed. */
  method PassOn(ghost nodes: set<Event>, ghost roots: set<Event>, order: Order, ins0: map<Event, set<Lock>>,
                work0: seq<Event>, e: Event)
    returns (ins: map<Event, set<Lock>>, work: seq<Event>)
    requires e in ins0 && ins0.Keys <= nodes && (forall d :: d in order ==> d.1 in nodes)
    requires WorkInv(nodes, roots, order, ins0, [e] + work0)
    ensures WorkInv(nodes, roots, order, ins, work) && Progress(nodes, ins0, work0, ins, work)
  {
    ins, work := ins0, work0;
    var out := Transfer(e, ins0[e]);
    var left := set d | d in order && d.0 == e :: d.1;
    forall s | (e, s) in order ensures s in left { assert (e, s).1 in left; }
    ghost var done: set<Event> := {};
    ServeStart(nodes, roots, order, ins0, work0, e);
    while left != {}
      invariant (forall s :: s in left ==> (e, s) in order) && forall s :: (e, s) in order ==> s in left || s in done
      invariant Serving(nodes, roots, order, ins0, work0, e, ins, work, done)
    {
      var s :| s in left;
      left := left - {s};
      ins, work := Serve(nodes, roots, order, ins0, work0, e, out, ins, work, done, s);
      done := done + {s};
    }
    ServeEnd(nodes, roots, order, ins0, work0, e, ins, work, done);
  }

  lemma BeginAtRoots(nodes: set<Event>, roots: set<Event>, order: Order, ins: map<Event, set<Lock>>, work: seq<Event>)
    requires ins == (map r | r in roots :: {}) && roots <= nodes && forall r :: r in work <==> r in roots
    ensures WorkInv(nodes, roots, order, ins, work)
  {
    forall e | e in ins ensures IsReached(roots, order, e) {
      assert LeadsTo(roots, order, [e], e);
    }
    forall e, l | e in ins ensures IsMissing(roots, order, e, l) {
      assert LeadsTo(roots, order, [e], e) && !HeldAlong([e], l);
    }
  }

  /** The worklist over the events of one role. */
  method RoleLocksets(nodes: set<Event>, order: Order, roots: seq<Event>) returns (ins: map<Event, set<Lock>>)
    requires (forall r :: r in roots ==> r in nodes) && forall d :: d in order ==> d.1 in nodes
    ensures IsMeetOverPaths((set r | r in roots), order, ins) && ins.Keys <= nodes
  {
    ghost var starts := set r | r in roots;
    ins := map r | r in roots :: {};
    var work := roots;
    BeginAtRoots(nodes, starts, order, ins, work);
    while work != []
      invariant WorkInv(nodes, starts, order, ins, work)
      decreases Unreached(nodes, ins), Allowed(ins), |work|
    {
      var e := work[0];
      assert work == [e] + work[1..] && e in work;
      ins, work := PassOn(nodes, starts, order, ins, work[1..], e);
    }
    StableAndJustified(starts, order, ins);
  }

  // ----- All roles of a report -----

  /** The recovered program order between the events of one role. */
  function RoleOrder(events: seq<Event>, edges: seq<(nat, nat)>, role: nat): Order {
    set a, b | a in events && b in events && a.role == Some(role) && b.role == Some(role)
      && (a.id, b.id) in edges :: (a, b)
  }

  function RoleEvents(events: seq<Event>, role: nat): (r: seq<Event>)
    ensures forall e :: e in r <==> e in events && e.role == Some(role)
  {
    if events == [] then [] else
      (if events[0].role == Some(role) then [events[0]] else []) + RoleEvents(events[1..], role)
  }

  predicate HasPredecessor(order: Order, e: Event) {
    exists d :: d in order && d.1 == e
  }

  function Entries(events: seq<Event>, order: Order): (r: seq<Event>)
    ensures forall e :: e in r <==> e in events && !HasPredecessor(order, e)
  {
    if events == [] then [] else
      (if HasPredecessor(order, events[0]) then [] else [events[0]]) + Entries(events[1..], order)
  }

  /** Where a role starts; a pure cycle has no entry, so it may start anywhere with nothing held. */
  function RoleRoots(events: seq<Event>, edges: seq<(nat, nat)>, role: nat): (r: seq<Event>)
    ensures forall e :: e in r ==> e in events && e.role == Some(role)
  {
    var mine := RoleEvents(events, role);
    var entries := Entries(mine, RoleOrder(events, edges, role));
    if entries == [] then mine else entries
  }

  ghost function OfRole(locksets: map<Event, set<Lock>>, role: nat): map<Event, set<Lock>> {
    map e | e in locksets && e.role == Some(role) :: locksets[e]
  }

  ghost function RootSet(events: seq<Event>, edges: seq<(nat, nat)>, role: nat): set<Event> {
    set r | r in RoleRoots(events, edges, role)
  }

  ghost predicate RoleIsExact(events: seq<Event>, edges: seq<(nat, nat)>, role: nat, locksets: map<Event, set<Lock>>) {
    IsMeetOverPaths(RootSet(events, edges, role), RoleOrder(events, edges, role), OfRole(locksets, role))
  }

  lemma MergeRole(events: seq<Event>, edges: seq<(nat, nat)>, locksets: map<Event, set<Lock>>, role: nat,
                  ins: map<Event, set<Lock>>)
    requires forall e :: e in ins ==> e.role == Some(role)
    requires forall e :: e in locksets ==> e.role != Some(role)
    ensures OfRole(locksets + ins, role) == ins
    ensures forall r :: r != role ==> OfRole(locksets + ins, r) == OfRole(locksets, r)
  {
  }

  /** Role by role: exactly the locks held on every path from the role's roots. */
  method ProveDefiniteLocksets(events: seq<Event>, edges: seq<(nat, nat)>) returns (locksets: map<Event, set<Lock>>)
    ensures forall e :: e in locksets ==> e in events && e.role.Some?
    ensures forall e :: e in events && e.role.Some? ==> RoleIsExact(events, edges, e.role.value, locksets)
  {
    locksets := map[];
    var roles := set e | e in events && e.role.Some? :: e.role.value;
    var left := roles;
    while left != {}
      invariant left <= roles
      invariant forall e :: e in locksets ==> e in events && e.role.Some? && e.role.value !in left
      invariant forall r :: r in roles && r !in left ==> RoleIsExact(events, edges, r, locksets)
    {
      var role :| role in left;
      left := left - {role};
      var mine := RoleEvents(events, role);
      var ins := RoleLocksets((set e | e in mine), RoleOrder(events, edges, role), RoleRoots(events, edges, role));
      MergeRole(events, edges, locksets, role, ins);
      locksets := locksets + ins;
    }
  }

  // ----- Protected groups -----

  predicate IsPlainAccess(e: Event) {
    e.effect.LOAD? || e.effect.STORE? || e.effect.ATOMIC_RMW?
  }

  function HeldAt(locksets: map<Event, set<Lock>>, e: Event): set<Lock> {
    if e in locksets then locksets[e] else {}
  }

  method LockProtectionCandidates(group: seq<Event>, locksets: map<Event, set<Lock>>) returns (locks: set<Lock>)
    ensures forall l :: l in locks <==>
              && group != []
              && (forall e :: e in group ==> e.effect in {Effect.LOAD, Effect.STORE, Effect.ATOMIC_RMW})
              && forall e :: e in group ==> e in locksets && l in locksets[e]
  {
    locks := {};
    if group == [] || exists e :: e in group && !IsPlainAccess(e) {
      return;
    }
    var candidates: Option<set<Lock>> := None;
    for i := 0 to |group|
      invariant candidates.None? <==> i == 0
      invariant candidates.Some? ==>
                  forall l :: l in candidates.value <==> forall e :: e in group[..i] ==> l in HeldAt(locksets, e)
    {
      var held := HeldAt(locksets, group[i]);
      assert group[..i + 1] == group[..i] + [group[i]];
      if held == {} {
        return;
      }
      candidates := Some(if candidates.None? then held else candidates.value * held);
      if candidates.value == {} {
        assert forall l :: l !in candidates.value;
        return;
      }
    }
    assert group[..|group|] == group;
    locks := candidates.value;
  }

  /** A lock that protects a group is held on every path to each of its events, and each is reached. */
  lemma ProtectionHolds(events: seq<Event>, edges: seq<(nat, nat)>, locksets: map<Event, set<Lock>>,
                        group: seq<Event>, e: Event, l: Lock)
    requires forall x :: x in locksets ==> x in events && x.role.Some?
    requires forall x :: x in events && x.role.Some? ==> RoleIsExact(events, edges, x.role.value, locksets)
    requires e in group && forall x :: x in group ==> l in HeldAt(locksets, x)
    ensures e.role.Some?
    ensures IsReached(RootSet(events, edges, e.role.value), RoleOrder(events, edges, e.role.value), e)
    ensures HeldOnAllPaths(RootSet(events, edges, e.role.value), RoleOrder(events, edges, e.role.value), e, l)
  {
    assert e in locksets && e in OfRole(locksets, e.role.value);
    assert RoleIsExact(events, edges, e.role.value, locksets);
  }

  // ----- The same in the fields of the events -----

  /** The event's address is a fixed place with this name and offset. */
  predicate NamesLock(e: Event, l: Lock) {
    match e.address
    case Some(AbstractAddress(kind, Some(base), offset, false)) =>
      base == l.base && offset == l.offset && kind == l.kind
      && (kind == GLOBAL || kind == HEAP || kind == STACK || kind == TLS)
    case _ => false
  }

  /** After e it is not known any more that l is held: e may do anything, or it is an operation on a lock that cannot
      be named, or it releases l. */
  predicate Forgets(e: Event, l: Lock) {
    match e.effect
    case OPAQUE_CALL => true
    case SYSCALL => true
    case UNKNOWN_MEMORY_EFFECT => true
    case ACQUIRE => NamesNothing(e)
    case RELEASE => NamesNothing(e) || NamesLock(e, l)
    case _ => false
  }

  predicate NamesNothing(e: Event) {
    match e.address
    case Some(AbstractAddress(kind, Some(_), _, false)) => kind == LOADED || kind == UNKNOWN
    case _ => true
  }

  /** l is acquired on the way to the last event of p and not forgotten since. */
  ghost predicate IsHeldThrough(p: seq<Event>, l: Lock) {
    exists i :: 0 <= i < |p| - 1 && p[i].effect == ACQUIRE && NamesLock(p[i], l)
                && forall j :: i < j < |p| - 1 ==> !Forgets(p[j], l)
  }

  /** Some edge leads from an event of e's role to e. */
  ghost predicate IsPreceded(events: seq<Event>, edges: seq<(nat, nat)>, e: Event) {
    exists d :: d in events && d.role == e.role && (d.id, e.id) in edges
  }

  /** An execution of the role along the edges, from an event without predecessor if there is one. */
  ghost predicate IsRolePath(events: seq<Event>, edges: seq<(nat, nat)>, role: nat, p: seq<Event>) {
    && p != [] && (forall i :: 0 <= i < |p| ==> p[i] in events && p[i].role == Some(role))
    && (forall i :: 0 <= i < |p| - 1 ==> (p[i].id, p[i + 1].id) in edges)
    && (IsPreceded(events, edges, p[0]) ==>
          forall e :: e in events && e.role == Some(role) ==> IsPreceded(events, edges, e))
  }

  ghost predicate IsRolePathTo(events: seq<Event>, edges: seq<(nat, nat)>, p: seq<Event>, e: Event) {
    e.role.Some? && IsRolePath(events, edges, e.role.value, p) && p[|p| - 1] == e
  }

  lemma NamedIsConcrete(e: Event, l: Lock)
    ensures ConcreteLock(e.address) == Some(l) <==> NamesLock(e, l)
    ensures ConcreteLock(e.address) == None <==> NamesNothing(e)
    ensures Drops(e, l) <==> Forgets(e, l)
  {
  }

  lemma HeldIsThrough(p: seq<Event>, l: Lock)
    ensures HeldAlong(p, l) <==> IsHeldThrough(p, l)
  {
    forall k | 0 <= k < |p| ensures Acquires(p[k], l) <==> p[k].effect == ACQUIRE && NamesLock(p[k], l)
      ensures Drops(p[k], l) <==> Forgets(p[k], l) {
      NamedIsConcrete(p[k], l);
    }
    if HeldAlong(p, l) {
      var i :| 0 <= i < |p| - 1 && Acquires(p[i], l) && forall j :: i < j < |p| - 1 ==> !Drops(p[j], l);
      assert NamesLock(p[i], l);
    }
    if IsHeldThrough(p, l) {
      var i :| 0 <= i < |p| - 1 && p[i].effect == ACQUIRE && NamesLock(p[i], l)
        && forall j :: i < j < |p| - 1 ==> !Forgets(p[j], l);
      assert Acquires(p[i], l);
    }
  }

  lemma EntryIsNotPreceded(events: seq<Event>, edges: seq<(nat, nat)>, role: nat, e: Event)
    requires e in events && e.role == Some(role)
    ensures HasPredecessor(RoleOrder(events, edges, role), e) <==> IsPreceded(events, edges, e)
  {
    if d :| d in events && d.role == e.role && (d.id, e.id) in edges {
      assert (d, e) in RoleOrder(events, edges, role);
    }
    if d :| d in RoleOrder(events, edges, role) && d.1 == e {
      assert (d.0.id, e.id) in edges;
    }
  }

  lemma RootsAreEntries(events: seq<Event>, edges: seq<(nat, nat)>, role: nat, e: Event)
    ensures e in RoleRoots(events, edges, role)
       <==> e in events && e.role == Some(role)
            && (IsPreceded(events, edges, e) ==>
                  forall x :: x in events && x.role == Some(role) ==> IsPreceded(events, edges, x))
  {
    var mine, order := RoleEvents(events, role), RoleOrder(events, edges, role);
    forall x | x in mine ensures HasPredecessor(order, x) <==> IsPreceded(events, edges, x) {
      EntryIsNotPreceded(events, edges, role, x);
    }
    if Entries(mine, order) != [] { assert Entries(mine, order)[0] in Entries(mine, order); }
  }

  lemma PathsAreRolePaths(events: seq<Event>, edges: seq<(nat, nat)>, role: nat, p: seq<Event>)
    ensures IsPath(RootSet(events, edges, role), RoleOrder(events, edges, role), p)
       <==> IsRolePath(events, edges, role, p)
  {
    if p != [] {
      RootsAreEntries(events, edges, role, p[0]);
      if IsPath(RootSet(events, edges, role), RoleOrder(events, edges, role), p) {
        forall i | 0 <= i < |p| ensures p[i] in events && p[i].role == Some(role) {
          if i > 0 { assert (p[i - 1], p[i]) in RoleOrder(events, edges, role); }
        }
        forall i | 0 <= i < |p| - 1 ensures (p[i].id, p[i + 1].id) in edges {
          assert (p[i], p[i + 1]) in RoleOrder(events, edges, role);
        }
      }
    }
  }

  /** An event has a lockset exactly if some execution of its role comes to it, and the set holds exactly the locks that
      are held on all of them. */
  lemma LocksetsByFields(events: seq<Event>, edges: seq<(nat, nat)>, locksets: map<Event, set<Lock>>, e: Event, l: Lock)
    requires forall x :: x in locksets ==> x in events && x.role.Some?
    requires forall x :: x in events && x.role.Some? ==> RoleIsExact(events, edges, x.role.value, locksets)
    ensures e in locksets <==> exists p :: IsRolePathTo(events, edges, p, e)
    ensures e in locksets ==>
      (l in locksets[e] <==> forall p :: IsRolePathTo(events, edges, p, e) ==> IsHeldThrough(p, l))
  {
    if e in events && e.role.Some? {
      var role := e.role.value;
      var roots, order := RootSet(events, edges, role), RoleOrder(events, edges, role);
      forall p ensures LeadsTo(roots, order, p, e) <==> IsRolePathTo(events, edges, p, e) {
        PathsAreRolePaths(events, edges, role, p);
      }
      forall p ensures HeldAlong(p, l) <==> IsHeldThrough(p, l) { HeldIsThrough(p, l); }
      assert RoleIsExact(events, edges, role, locksets);
      assert e in locksets <==> e in OfRole(locksets, role);
    }
  }
}

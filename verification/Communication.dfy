/** Finding communication: accesses are filed under the pages they touch, and every page is swept in
    address order with a set of still active accesses. */
module Communication {
  import opened Events

  /** An object is a thread's local storage, or one generation of an allocation. */
  datatype ObjectId = ThreadLocal(owner: nat) | Allocation(stem: string, generation: nat)

  /** A stored memory access. Ids are numbered in the order in which the store compares them. Only the
      read that the store itself makes up from a futex system call is filed without the page limit. */
  datatype Access = Access(
    id: nat, thread: nat, ticket: nat, address: nat, size: nat, pc: nat, kind: EventKind, isMadeUp: bool,
    allocation: Option<ObjectId>)
  {
    function End(): nat { address + size }
    function FirstPage(): nat { address / PAGE }
    function LastPage(): nat
      requires size > 0
    {
      (End() - 1) / PAGE
    }
    predicate Writes() { kind == STORE || kind == ATOMIC_RMW }
    predicate IsPlain() { kind == LOAD || kind == STORE || kind == ATOMIC_RMW }
  }

  const PAGE: nat := 4096

  ghost predicate ValidAccesses(accesses: seq<Access>) {
    && (forall a :: a in accesses ==> a.size > 0)
    && (forall i, j :: 0 <= i < j < |accesses| ==> accesses[i].id != accesses[j].id)
  }

  // ----- The page index -----

  predicate IsFiled(a: Access, maxPages: nat)
    requires a.size > 0
  {
    a.isMadeUp || a.LastPage() - a.FirstPage() + 1 <= maxPages
  }

  predicate Touches(a: Access, page: nat)
    requires a.size > 0
  {
    a.FirstPage() <= page <= a.LastPage()
  }

  type Row = (Access, nat)

  ghost predicate NoRepeats<T>(items: seq<T>) {
    forall i, j :: 0 <= i < j < |items| ==> items[i] != items[j]
  }

  /** The index lists every filed access once under each page it touches. */
  ghost predicate IsPageIndex(accesses: seq<Access>, maxPages: nat, rows: seq<Row>)
    requires forall a :: a in accesses ==> a.size > 0
  {
    && NoRepeats(rows)
    && forall a, p: nat :: (a, p) in rows <==> a in accesses && IsFiled(a, maxPages) && Touches(a, p)
  }

  method FilePages(accesses: seq<Access>, maxPages: nat) returns (rows: seq<Row>, unsupported: seq<Access>)
    requires ValidAccesses(accesses)
    ensures IsPageIndex(accesses, maxPages, rows)
    ensures forall a :: a in unsupported <==> a in accesses && !IsFiled(a, maxPages)
  {
    rows, unsupported := [], [];
    for i := 0 to |accesses|
      invariant IsPageIndex(accesses[..i], maxPages, rows)
      invariant forall a :: a in unsupported <==> a in accesses[..i] && !IsFiled(a, maxPages)
    {
      var a := accesses[i];
      assert accesses[..i + 1] == accesses[..i] + [a];
      if !IsFiled(a, maxPages) {
        unsupported := unsupported + [a];
        continue;
      }
      ghost var before := rows;
      var page := a.FirstPage();
      while page <= a.LastPage()
        invariant a.FirstPage() <= page <= a.LastPage() + 1
        invariant NoRepeats(rows)
        invariant forall b, p: nat :: (b, p) in rows <==> (b, p) in before || (b == a && a.FirstPage() <= p < page)
      {
        rows := rows + [(a, page)];
        page := page + 1;
      }
    }
    assert accesses[..|accesses|] == accesses;
  }

  // ----- What counts as communication -----

  /** A worker whose creation and join by its parent are known. */
  datatype Handoff = Handoff(parent: nat, worker: nat, startTicket: nat, joinTicket: nat, endTicket: nat)

  /** The accesses of parent and worker are taken as ordered by creation or join. The parent's access is compared
      with the start of the worker, not with its creation: one that lies between the two counts as ordered too. */
  predicate OrderedByHandoff(h: Handoff, current: Access, other: Access) {
    var worker := if current.thread == h.worker then current else other;
    var parent := if current.thread == h.worker then other else current;
    && worker.IsPlain() && parent.IsPlain()
    && (parent.ticket < h.startTicket || (parent.ticket > h.joinTicket && worker.ticket <= h.endTicket))
  }

  predicate IsHandoff(handoffs: map<nat, Handoff>, current: Access, other: Access) {
    if current.thread in handoffs && other.thread == handoffs[current.thread].parent then
      OrderedByHandoff(handoffs[current.thread], current, other)
    else if other.thread in handoffs && current.thread == handoffs[other.thread].parent then
      OrderedByHandoff(handoffs[other.thread], current, other)
    else
      false
  }

  /** Parents are no workers, and each entry is stored under its worker. */
  ghost predicate ValidHandoffs(handoffs: map<nat, Handoff>) {
    forall t :: t in handoffs ==> handoffs[t].worker == t && handoffs[t].parent !in handoffs
  }

  lemma HandoffIsSymmetric(handoffs: map<nat, Handoff>, a: Access, b: Access)
    requires ValidHandoffs(handoffs) && a.thread != b.thread
    ensures IsHandoff(handoffs, a, b) <==> IsHandoff(handoffs, b, a)
  {
  }

  predicate OtherGeneration(a: Access, b: Access) {
    && a.allocation.Some? && b.allocation.Some? && a.allocation != b.allocation
    && a.allocation.value.Allocation? && b.allocation.value.Allocation?
      && a.allocation.value.stem == b.allocation.value.stem
  }

  function Max(a: nat, b: nat): nat { if a >= b then a else b }

  function Min(a: nat, b: nat): nat { if a <= b then a else b }

  predicate Communicates(handoffs: map<nat, Handoff>, a: Access, b: Access) {
    && a.thread != b.thread && (a.Writes() || b.Writes())
    && !IsHandoff(handoffs, a, b) && !OtherGeneration(a, b)
    && Max(a.address, b.address) < Min(a.End(), b.End())
  }

  lemma CommunicationIsSymmetric(handoffs: map<nat, Handoff>, a: Access, b: Access)
    requires ValidHandoffs(handoffs)
    ensures Communicates(handoffs, a, b) <==> Communicates(handoffs, b, a)
  {
    if a.thread != b.thread { HandoffIsSymmetric(handoffs, a, b); }
  }

  datatype Link = Link(first: nat, second: nat, address: nat, size: nat)

  function LinkOf(a: Access, b: Access): Link
    requires Max(a.address, b.address) < Min(a.End(), b.End())
  {
    var start := Max(a.address, b.address);
    Link(Min(a.id, b.id), Max(a.id, b.id), start, Min(a.End(), b.End()) - start)
  }

  /** The page on which a pair is reported: where its overlap starts. */
  function HomePage(a: Access, b: Access): nat {
    Max(a.address, b.address) / PAGE
  }

  ghost predicate Reports(handoffs: map<nat, Handoff>, page: nat, a: Access, b: Access, l: Link) {
    Communicates(handoffs, a, b) && HomePage(a, b) == page && l == LinkOf(a, b)
  }

  lemma ReportIsSymmetric(handoffs: map<nat, Handoff>, page: nat, a: Access, b: Access, l: Link)
    requires ValidHandoffs(handoffs)
    ensures Reports(handoffs, page, a, b, l) <==> Reports(handoffs, page, b, a, l)
  {
    CommunicationIsSymmetric(handoffs, a, b);
  }

  // ----- Sweeping one page -----

  datatype Outcome = Complete | LimitReached | TooManyActive

  predicate InOrder(a: Access, b: Access) {
    a.address < b.address || (a.address == b.address && a.id < b.id)
  }

  ghost predicate SortedRows(rows: seq<Access>) {
    forall i, j :: 0 <= i < j < |rows| ==> InOrder(rows[i], rows[j]) && rows[i].id != rows[j].id
  }

  ghost predicate PairReports(handoffs: map<nat, Handoff>, page: nat, rows: seq<Access>, k: nat, l: Link) {
    exists i, j :: 0 <= i < j < k <= |rows| && Reports(handoffs, page, rows[i], rows[j], l)
  }

  ghost predicate RowReports(handoffs: map<nat, Handoff>, page: nat, current: Access, active: seq<Access>, m: nat,
                             l: Link) {
    exists i :: 0 <= i < m <= |active| && Reports(handoffs, page, current, active[i], l)
  }

  ghost predicate DistinctIds(active: seq<Access>) {
    forall i, j :: 0 <= i < j < |active| ==> active[i].id != active[j].id
  }

  /** After k rows, the active list holds every row so far that reaches beyond the last start. */
  ghost predicate IsActive(rows: seq<Access>, k: nat, active: seq<Access>) {
    && k <= |rows|
    && (forall a :: a in active ==> exists i :: 0 <= i < k && rows[i] == a)
    && (forall i :: 0 <= i < k && rows[i].End() > rows[k - 1].address ==> rows[i] in active)
    && DistinctIds(active)
  }

  /** The earlier rows that reach into row k. */
  ghost function ActiveRows(rows: seq<Access>, k: nat): set<Access>
    requires k < |rows|
  {
    set a | a in rows[..k] && a.End() > rows[k].address
  }

  /** Some row before row n meets at least so many active rows. */
  ghost predicate IsCrowdedUpTo(rows: seq<Access>, n: nat, maxActive: nat) {
    exists k :: 0 <= k < n <= |rows| && |ActiveRows(rows, k)| >= maxActive
  }

  lemma {:induction false} DistinctSize(active: seq<Access>, all: set<Access>)
    requires DistinctIds(active) && forall a :: a in active <==> a in all
    ensures |active| == |all|
  {
    if active != [] {
      var n := |active| - 1;
      forall a ensures a in active[..n] <==> a in all - {active[n]} {
        if a in active[..n] {
          var i :| 0 <= i < n && active[i] == a;
          assert active[i].id != active[n].id;
        }
        if a in all && a != active[n] {
          var i :| 0 <= i < |active| && active[i] == a;
        }
      }
      DistinctSize(active[..n], all - {active[n]});
    }
  }

  /** The active list of row k holds exactly the rows that reach into it. */
  lemma ActiveSize(rows: seq<Access>, k: nat, active: seq<Access>)
    requires SortedRows(rows) && k < |rows| && IsActive(rows, k, active)
    ensures |StillActive(active, rows[k].address)| == |ActiveRows(rows, k)|
  {
    var still := StillActive(active, rows[k].address);
    StillDistinct(active, rows[k].address);
    forall a ensures a in still <==> a in ActiveRows(rows, k) {
      if a in still {
        var i :| 0 <= i < k && rows[i] == a;
        assert rows[..k][i] == a;
      }
      if a in rows[..k] && a.End() > rows[k].address {
        var i :| 0 <= i < k && rows[..k][i] == a;
        assert InOrder(rows[i], rows[k]) && (i < k - 1 ==> InOrder(rows[k - 1], rows[k]));
      }
    }
    DistinctSize(still, ActiveRows(rows, k));
  }

  function StillActive(active: seq<Access>, start: nat): (r: seq<Access>)
    ensures forall a :: a in r <==> a in active && a.End() > start
  {
    if active == [] then [] else
      (if active[0].End() > start then [active[0]] else []) + StillActive(active[1..], start)
  }

  lemma {:induction false} StillDistinct(active: seq<Access>, start: nat)
    requires DistinctIds(active)
    ensures DistinctIds(StillActive(active, start))
  {
    if active != [] {
      StillDistinct(active[1..], start);
      var rest := StillActive(active[1..], start);
      forall i | 0 <= i < |rest| ensures rest[i].id != active[0].id {
        assert rest[i] in active[1..];
      }
    }
  }

  /** The pairs of row k with earlier rows are its pairs with the active rows. */
  lemma EarlierIsActive(handoffs: map<nat, Handoff>, page: nat, rows: seq<Access>, k: nat, active: seq<Access>,
                        i: nat, l: Link)
    requires ValidHandoffs(handoffs) && SortedRows(rows) && k < |rows| && IsActive(rows, k, active)
    requires i < k && Reports(handoffs, page, rows[i], rows[k], l)
    ensures RowReports(handoffs, page, rows[k], StillActive(active, rows[k].address),
                       |StillActive(active, rows[k].address)|, l)
  {
    var still := StillActive(active, rows[k].address);
    assert InOrder(rows[i], rows[k]) && (i < k - 1 ==> InOrder(rows[k - 1], rows[k]));
    assert rows[i] in still;
    ReportIsSymmetric(handoffs, page, rows[i], rows[k], l);
  }

  lemma ActiveIsEarlier(handoffs: map<nat, Handoff>, page: nat, rows: seq<Access>, k: nat, active: seq<Access>, l: Link)
    requires ValidHandoffs(handoffs) && k < |rows| && IsActive(rows, k, active)
    requires RowReports(handoffs, page, rows[k], StillActive(active, rows[k].address),
                        |StillActive(active, rows[k].address)|, l)
    ensures PairReports(handoffs, page, rows, k + 1, l)
  {
    var still := StillActive(active, rows[k].address);
    var i :| 0 <= i < |still| && Reports(handoffs, page, rows[k], still[i], l);
    assert still[i] in active;
    var n :| 0 <= n < k && rows[n] == still[i];
    ReportIsSymmetric(handoffs, page, rows[k], still[i], l);
  }

  lemma ActiveCoversRow(handoffs: map<nat, Handoff>, page: nat, rows: seq<Access>, k: nat, active: seq<Access>, l: Link)
    requires ValidHandoffs(handoffs) && SortedRows(rows) && k < |rows| && IsActive(rows, k, active)
    ensures PairReports(handoffs, page, rows, k + 1, l)
       <==> PairReports(handoffs, page, rows, k, l)
            || RowReports(handoffs, page, rows[k], StillActive(active, rows[k].address),
                          |StillActive(active, rows[k].address)|, l)
  {
    if i, j :| 0 <= i < j < k + 1 && Reports(handoffs, page, rows[i], rows[j], l) {
      if j == k { EarlierIsActive(handoffs, page, rows, k, active, i, l); }
    }
    if RowReports(handoffs, page, rows[k], StillActive(active, rows[k].address),
                  |StillActive(active, rows[k].address)|, l) {
      ActiveIsEarlier(handoffs, page, rows, k, active, l);
    }
  }

  lemma ActiveAdvances(rows: seq<Access>, k: nat, active: seq<Access>)
    requires SortedRows(rows) && k < |rows| && IsActive(rows, k, active)
    ensures IsActive(rows, k + 1, StillActive(active, rows[k].address) + [rows[k]])
  {
    var still := StillActive(active, rows[k].address);
    forall i | 0 <= i < k && rows[i].End() > rows[k].address ensures rows[i] in still {
      if i < k - 1 { assert InOrder(rows[k - 1], rows[k]); }
    }
    StillDistinct(active, rows[k].address);
    forall i | 0 <= i < |still| ensures still[i].id != rows[k].id {
      assert still[i] in active;
    }
  }

  lemma LinkDeterminesPair(a: Access, b: Access, c: Access, d: Access)
    requires Max(a.address, b.address) < Min(a.End(), b.End()) && Max(c.address, d.address) < Min(c.End(), d.End())
    requires LinkOf(a, b).first == LinkOf(c, d).first && LinkOf(a, b).second == LinkOf(c, d).second
    ensures (a.id == c.id && b.id == d.id) || (a.id == d.id && b.id == c.id)
  {
  }

  /** The link of row k with a still active row has not been found before. */
  lemma LinkIsNew(handoffs: map<nat, Handoff>, page: nat, rows: seq<Access>, k: nat, active: seq<Access>,
                  still: seq<Access>, m: nat, l: Link)
    requires SortedRows(rows) && k < |rows| && IsActive(rows, k, active)
      && still == StillActive(active, rows[k].address)
    requires m < |still| && Reports(handoffs, page, rows[k], still[m], l)
    ensures !PairReports(handoffs, page, rows, k, l) && !RowReports(handoffs, page, rows[k], still, m, l)
  {
    StillDistinct(active, rows[k].address);
    if i, j :| 0 <= i < j < k && Reports(handoffs, page, rows[i], rows[j], l) {
      LinkDeterminesPair(rows[k], still[m], rows[i], rows[j]);
    }
    if i :| 0 <= i < m && Reports(handoffs, page, rows[k], still[i], l) {
      LinkDeterminesPair(rows[k], still[m], rows[k], still[i]);
    }
  }

  ghost predicate FoundRows(handoffs: map<nat, Handoff>, page: nat, rows: seq<Access>, k: nat, found: seq<Link>) {
    NoRepeats(found) && forall l :: l in found <==> PairReports(handoffs, page, rows, k, l)
  }

  ghost predicate FoundOnly(handoffs: map<nat, Handoff>, page: nat, rows: seq<Access>, k: nat, found: seq<Link>) {
    NoRepeats(found) && forall l :: l in found ==> PairReports(handoffs, page, rows, k, l)
  }

  ghost predicate FoundInRow(handoffs: map<nat, Handoff>, page: nat, rows: seq<Access>, k: nat, still: seq<Access>,
                             m: nat, found: seq<Link>)
    requires k < |rows|
  {
    && NoRepeats(found)
    && forall l :: l in found <==>
      PairReports(handoffs, page, rows, k, l) || RowReports(handoffs, page, rows[k], still, m, l)
  }

  lemma RowReportsNext(handoffs: map<nat, Handoff>, page: nat, current: Access, still: seq<Access>, m: nat, l: Link)
    requires m < |still|
    ensures RowReports(handoffs, page, current, still, m + 1, l)
       <==> RowReports(handoffs, page, current, still, m, l) || Reports(handoffs, page, current, still[m], l)
  {
  }

  lemma SkipInRow(handoffs: map<nat, Handoff>, page: nat, rows: seq<Access>, k: nat, still: seq<Access>, m: nat,
                  found: seq<Link>)
    requires k < |rows| && m < |still| && FoundInRow(handoffs, page, rows, k, still, m, found)
    requires !(Communicates(handoffs, rows[k], still[m]) && HomePage(rows[k], still[m]) == page)
    ensures FoundInRow(handoffs, page, rows, k, still, m + 1, found)
  {
    forall l ensures RowReports(handoffs, page, rows[k], still, m + 1, l)
      <==> RowReports(handoffs, page, rows[k], still, m, l) {
      RowReportsNext(handoffs, page, rows[k], still, m, l);
    }
  }

  lemma AddInRow(handoffs: map<nat, Handoff>, page: nat, rows: seq<Access>, k: nat, active: seq<Access>,
                 still: seq<Access>, m: nat, found: seq<Link>, link: Link)
    requires SortedRows(rows) && k < |rows| && IsActive(rows, k, active)
      && still == StillActive(active, rows[k].address)
    requires m < |still| && FoundInRow(handoffs, page, rows, k, still, m, found)
    requires Reports(handoffs, page, rows[k], still[m], link)
    ensures FoundInRow(handoffs, page, rows, k, still, m + 1, found + [link])
  {
    forall l ensures RowReports(handoffs, page, rows[k], still, m + 1, l)
                <==> RowReports(handoffs, page, rows[k], still, m, l) || l == link {
      RowReportsNext(handoffs, page, rows[k], still, m, l);
    }
    LinkIsNew(handoffs, page, rows, k, active, still, m, link);
  }

  lemma RowIsDone(handoffs: map<nat, Handoff>, page: nat, rows: seq<Access>, k: nat, active: seq<Access>,
                  still: seq<Access>, m: nat, found: seq<Link>)
    requires ValidHandoffs(handoffs) && SortedRows(rows) && k < |rows| && IsActive(rows, k, active)
    requires still == StillActive(active, rows[k].address) && m <= |still|
    requires FoundInRow(handoffs, page, rows, k, still, m, found)
    ensures FoundOnly(handoffs, page, rows, k + 1, found)
    ensures m == |still| ==> FoundRows(handoffs, page, rows, k + 1, found)
  {
    forall l ensures RowReports(handoffs, page, rows[k], still, m, l)
      ==> RowReports(handoffs, page, rows[k], still, |still|, l)
             ensures PairReports(handoffs, page, rows, k + 1, l)
                <==> PairReports(handoffs, page, rows, k, l) || RowReports(handoffs, page, rows[k], still, |still|, l) {
      ActiveCoversRow(handoffs, page, rows, k, active, l);
    }
  }

  predicate StaysBelow(limit: Option<nat>, n: nat) {
    limit.None? || n < limit.value
  }

  /** The link that reaches the limit is the last one; a limit of zero is noticed after the first. */
  ghost predicate IsFull(limit: Option<nat>, n: nat) {
    limit.Some? && n == if limit.value == 0 then 1 else limit.value
  }

  /** The links that row k forms with the active rows; stops early at the limit. */
  method SweepRow(handoffs: map<nat, Handoff>, page: nat, rows: seq<Access>, k: nat, ghost active: seq<Access>,
                  still: seq<Access>, found: seq<Link>, already: nat, limit: Option<nat>)
    returns (found': seq<Link>, stopped: bool)
    requires ValidHandoffs(handoffs) && SortedRows(rows) && k < |rows| && IsActive(rows, k, active)
    requires still == StillActive(active, rows[k].address) && FoundRows(handoffs, page, rows, k, found)
    ensures FoundOnly(handoffs, page, rows, k + 1, found')
    ensures !stopped ==> FoundRows(handoffs, page, rows, k + 1, found')
    requires already + |found| == 0 || StaysBelow(limit, already + |found|)
    ensures stopped ==> IsFull(limit, already + |found'|)
    ensures !stopped ==> already + |found'| == 0 || StaysBelow(limit, already + |found'|)
  {
    found', stopped := found, false;
    for m := 0 to |still|
      invariant FoundInRow(handoffs, page, rows, k, still, m, found')
      invariant already + |found'| == 0 || StaysBelow(limit, already + |found'|)
    {
      if Communicates(handoffs, rows[k], still[m]) && HomePage(rows[k], still[m]) == page {
        AddInRow(handoffs, page, rows, k, active, still, m, found', LinkOf(rows[k], still[m]));
        found' := found' + [LinkOf(rows[k], still[m])];
        if limit.Some? && already + |found'| >= limit.value {
          RowIsDone(handoffs, page, rows, k, active, still, m + 1, found');
          return found', true;
        }
      } else {
        SkipInRow(handoffs, page, rows, k, still, m, found');
      }
    }
    RowIsDone(handoffs, page, rows, k, active, still, |still|, found');
  }

  /** What the sweep of a page has come to, or ends with. */
  ghost predicate SweepIs(outcome: Outcome, handoffs: map<nat, Handoff>, page: nat, rows: seq<Access>, k: nat,
                          found: seq<Link>, already: nat, limit: Option<nat>, maxActive: nat) {
    match outcome
    case Complete =>
      && k <= |rows| && FoundRows(handoffs, page, rows, k, found) && !IsCrowdedUpTo(rows, k, maxActive)
      && (already + |found| == 0 || StaysBelow(limit, already + |found|))
    case LimitReached =>
      FoundOnly(handoffs, page, rows, |rows|, found) && IsFull(limit, already + |found|)
    case TooManyActive =>
      FoundOnly(handoffs, page, rows, |rows|, found) && IsCrowdedUpTo(rows, |rows|, maxActive)
  }

  lemma CrowdedNext(rows: seq<Access>, k: nat, maxActive: nat)
    requires k < |rows|
    ensures IsCrowdedUpTo(rows, k + 1, maxActive) <==>
      IsCrowdedUpTo(rows, k, maxActive) || |ActiveRows(rows, k)| >= maxActive
    ensures IsCrowdedUpTo(rows, k + 1, maxActive) ==> IsCrowdedUpTo(rows, |rows|, maxActive)
  {
  }

  /** One row of the sweep. */
  method SweepNext(handoffs: map<nat, Handoff>, page: nat, rows: seq<Access>, k: nat, active: seq<Access>,
                   found: seq<Link>, already: nat, limit: Option<nat>, maxActive: nat)
    returns (active': seq<Access>, found': seq<Link>, outcome: Outcome)
    requires ValidHandoffs(handoffs) && SortedRows(rows) && k < |rows| && IsActive(rows, k, active)
    requires SweepIs(Complete, handoffs, page, rows, k, found, already, limit, maxActive)
    ensures SweepIs(outcome, handoffs, page, rows, k + 1, found', already, limit, maxActive)
    ensures outcome == Complete ==> IsActive(rows, k + 1, active')
  {
    var still := StillActive(active, rows[k].address);
    var stopped;
    active' := still + [rows[k]];
    found', stopped := SweepRow(handoffs, page, rows, k, active, still, found, already, limit);
    FoundMonotone(handoffs, page, rows, k + 1, found');
    if stopped {
      return active', found', LimitReached;
    }
    ActiveSize(rows, k, active);
    CrowdedNext(rows, k, maxActive);
    if |still| >= maxActive {
      return active', found', TooManyActive;
    }
    ActiveAdvances(rows, k, active);
    outcome := Complete;
  }

  /** Sweeps the rows of a page, which come in address order. It stops early only at the limit or at a row that
      meets too many active ones. */
  method SweepPage(handoffs: map<nat, Handoff>, page: nat, rows: seq<Access>, already: nat, limit: Option<nat>,
                   maxActive: nat)
    returns (found: seq<Link>, outcome: Outcome)
    requires ValidHandoffs(handoffs) && SortedRows(rows) && (already == 0 || StaysBelow(limit, already))
    ensures SweepIs(outcome, handoffs, page, rows, |rows|, found, already, limit, maxActive)
    ensures FoundOnly(handoffs, page, rows, |rows|, found)
  {
    found, outcome := [], Complete;
    var active: seq<Access> := [];
    for k := 0 to |rows|
      invariant IsActive(rows, k, active) && SweepIs(Complete, handoffs, page, rows, k, found, already, limit,
        maxActive)
    {
      active, found, outcome := SweepNext(handoffs, page, rows, k, active, found, already, limit, maxActive);
      if outcome != Complete {
        return;
      }
    }
    outcome := Complete;
  }

  lemma FoundMonotone(handoffs: map<nat, Handoff>, page: nat, rows: seq<Access>, k: nat, found: seq<Link>)
    requires k <= |rows| && FoundOnly(handoffs, page, rows, k, found)
    ensures FoundOnly(handoffs, page, rows, |rows|, found)
  {
  }

  // ----- Sweeping all pages -----

  function InsertRow(rows: seq<Access>, a: Access): (r: seq<Access>)
    requires SortedRows(rows) && forall x :: x in rows ==> x.id != a.id
    ensures SortedRows(r)
    ensures forall x :: x in r <==> x == a || x in rows
  {
    if rows == [] || InOrder(a, rows[0]) then [a] + rows
    else
      var rest := InsertRow(rows[1..], a);
      assert forall x :: x in rows <==> x == rows[0] || x in rows[1..];
      assert InOrder(rows[0], a) by { assert rows[0] in rows; }
      assert forall x :: x in rest ==> InOrder(rows[0], x) && x.id != rows[0].id;
      [rows[0]] + rest
  }

  ghost predicate ValidIndex(index: seq<Row>) {
    && NoRepeats(index)
    && (forall a, b, p: nat, q: nat :: (a, p) in index && (b, q) in index && a.id == b.id ==> a == b)
    && (forall a, p: nat :: (a, p) in index ==> a.size > 0)
  }

  ghost predicate Filed(index: seq<Row>, page: nat, a: Access) {
    (a, page) in index
  }

  ghost predicate IsPageOf(index: seq<Row>, page: nat, rows: seq<Access>) {
    SortedRows(rows) && forall a :: a in rows <==> Filed(index, page, a)
  }

  /** The accesses filed under a page, in the order of the store's query. */
  function RowsOfPage(index: seq<Row>, page: nat): (rows: seq<Access>)
    requires ValidIndex(index)
    ensures IsPageOf(index, page, rows)
  {
    if index == [] then [] else
      var (a, p) := index[0];
      assert index == [(a, p)] + index[1..];
      assert forall r :: r in index[1..] ==> r in index && r != (a, p);
      var rest := RowsOfPage(index[1..], page);
      assert p == page ==> forall x :: x in rest ==> x.id != a.id by {
        forall x | p == page && x in rest ensures x.id != a.id {
          assert Filed(index[1..], page, x);
        }
      }
      if p == page then InsertRow(rest, a) else rest
  }

  ghost predicate PageReports(index: seq<Row>, handoffs: map<nat, Handoff>, page: nat, l: Link) {
    exists a, b :: Filed(index, page, a) && Filed(index, page, b) && Reports(handoffs, page, a, b, l)
  }

  /** The pairs of sorted rows are the unordered pairs of the page. */
  lemma RowsReportPage(index: seq<Row>, handoffs: map<nat, Handoff>, page: nat, rows: seq<Access>, l: Link)
    requires ValidHandoffs(handoffs) && IsPageOf(index, page, rows)
    ensures PairReports(handoffs, page, rows, |rows|, l) <==> PageReports(index, handoffs, page, l)
  {
    if i, j :| 0 <= i < j < |rows| && Reports(handoffs, page, rows[i], rows[j], l) {
      assert Filed(index, page, rows[i]) && Filed(index, page, rows[j]);
    }
    if a, b :| Filed(index, page, a) && Filed(index, page, b) && Reports(handoffs, page, a, b, l) {
      var i :| 0 <= i < |rows| && rows[i] == a;
      var j :| 0 <= j < |rows| && rows[j] == b;
      ReportIsSymmetric(handoffs, page, a, b, l);
      if i < j {
        assert Reports(handoffs, page, rows[i], rows[j], l);
      } else {
        assert Reports(handoffs, page, rows[j], rows[i], l);
      }
    }
  }

  /** A page that the store's query selects: two threads, a write, and an access of the wanted code. */
  predicate Eligible(rows: seq<Access>, pcRange: Option<(nat, nat)>) {
    && (exists a :: a in rows && exists b :: b in rows && a.thread != b.thread)
    && (exists a :: a in rows && a.Writes())
    && (pcRange.Some? ==> exists a :: a in rows && pcRange.value.0 <= a.pc < pcRange.value.1)
  }

  ghost predicate IsEligible(index: seq<Row>, page: nat, pcRange: Option<(nat, nat)>) {
    exists rows :: IsPageOf(index, page, rows) && Eligible(rows, pcRange)
  }

  lemma EligibilityIsUnique(index: seq<Row>, page: nat, pcRange: Option<(nat, nat)>, rows: seq<Access>)
    requires IsPageOf(index, page, rows)
    ensures IsEligible(index, page, pcRange) <==> Eligible(rows, pcRange)
  {
    if other :| IsPageOf(index, page, other) && Eligible(other, pcRange) {
      forall a ensures a in rows <==> a in other {
        assert a in rows <==> Filed(index, page, a);
      }
    }
  }

  /** Among the pages seen, the eligible ones are listed. */
  ghost predicate ListsEligible(index: seq<Row>, pcRange: Option<(nat, nat)>, n: nat, seen: set<nat>, pages: seq<nat>) {
    && NoRepeats(pages) && (forall p: nat :: p in pages ==> p in seen)
    && (forall k :: 0 <= k < n <= |index| ==> index[k].1 in seen)
    && (forall p: nat :: p in seen ==> (p in pages <==> IsEligible(index, p, pcRange)))
  }

  lemma AllEligibleListed(index: seq<Row>, pcRange: Option<(nat, nat)>, seen: set<nat>, pages: seq<nat>)
    requires ListsEligible(index, pcRange, |index|, seen, pages)
    ensures forall p: nat :: p in pages <==> IsEligible(index, p, pcRange)
  {
    forall p: nat | IsEligible(index, p, pcRange) ensures p in pages {
      var rows :| IsPageOf(index, p, rows) && Eligible(rows, pcRange);
      var a :| a in rows;
      assert Filed(index, p, a);
      var k :| 0 <= k < |index| && index[k] == (a, p);
    }
  }

  method PageIsEligible(index: seq<Row>, pcRange: Option<(nat, nat)>, page: nat) returns (eligible: bool)
    requires ValidIndex(index)
    ensures eligible <==> IsEligible(index, page, pcRange)
  {
    var rows := RowsOfPage(index, page);
    assert IsPageOf(index, page, rows);
    EligibilityIsUnique(index, page, pcRange, rows);
    eligible := Eligible(rows, pcRange);
  }

  method EligiblePages(index: seq<Row>, pcRange: Option<(nat, nat)>) returns (pages: seq<nat>)
    requires ValidIndex(index)
    ensures NoRepeats(pages)
    ensures forall p: nat :: p in pages <==> IsEligible(index, p, pcRange)
  {
    pages := [];
    var seen: set<nat> := {};
    for i := 0 to |index|
      invariant ListsEligible(index, pcRange, i, seen, pages)
    {
      var page := index[i].1;
      if page !in seen {
        seen := seen + {page};
        var eligible := PageIsEligible(index, pcRange, page);
        if eligible {
          pages := pages + [page];
        }
      }
    }
    AllEligibleListed(index, pcRange, seen, pages);
  }

  ghost predicate PagesReport(index: seq<Row>, handoffs: map<nat, Handoff>, pages: seq<nat>, n: nat, l: Link) {
    exists i :: 0 <= i < n <= |pages| && PageReports(index, handoffs, pages[i], l)
  }

  ghost predicate FoundPages(index: seq<Row>, handoffs: map<nat, Handoff>, pages: seq<nat>, n: nat, found: seq<Link>) {
    NoRepeats(found) && forall l :: l in found <==> PagesReport(index, handoffs, pages, n, l)
  }

  ghost predicate FoundOnlyPages(index: seq<Row>, handoffs: map<nat, Handoff>, pages: seq<nat>, n: nat,
                                 found: seq<Link>) {
    NoRepeats(found) && forall l :: l in found ==> PagesReport(index, handoffs, pages, n, l)
  }

  lemma PageOfLink(index: seq<Row>, handoffs: map<nat, Handoff>, page: nat, l: Link)
    requires PageReports(index, handoffs, page, l)
    ensures l.address / PAGE == page
  {
  }

  lemma NoRepeatsJoined<T>(s: seq<T>, t: seq<T>)
    requires NoRepeats(s) && NoRepeats(t) && forall x :: x in s ==> x !in t
    ensures NoRepeats(s + t)
  {
    forall i, j | 0 <= i < j < |s + t| ensures (s + t)[i] != (s + t)[j] {
      if i < |s| { assert s[i] in s; }
    }
  }

  lemma NextPage(index: seq<Row>, handoffs: map<nat, Handoff>, pages: seq<nat>, n: nat, found: seq<Link>,
                 rows: seq<Access>, more: seq<Link>)
    requires ValidHandoffs(handoffs) && NoRepeats(pages) && n < |pages| && IsPageOf(index, pages[n], rows)
    requires FoundPages(index, handoffs, pages, n, found) && FoundOnly(handoffs, pages[n], rows, |rows|, more)
    ensures FoundOnlyPages(index, handoffs, pages, n + 1, found + more)
    ensures FoundRows(handoffs, pages[n], rows, |rows|, more)
      ==> FoundPages(index, handoffs, pages, n + 1, found + more)
  {
    forall l ensures PairReports(handoffs, pages[n], rows, |rows|, l) <==> PageReports(index, handoffs, pages[n], l) {
      RowsReportPage(index, handoffs, pages[n], rows, l);
    }
    forall l | l in found ensures l !in more {
      var i :| 0 <= i < n && PageReports(index, handoffs, pages[i], l);
      PageOfLink(index, handoffs, pages[i], l);
      if l in more { PageOfLink(index, handoffs, pages[n], l); }
    }
    NoRepeatsJoined(found, more);
    forall l ensures PagesReport(index, handoffs, pages, n + 1, l)
                <==> PagesReport(index, handoffs, pages, n, l) || PageReports(index, handoffs, pages[n], l) {
    }
  }

  /** What the whole sweep is to report: the communicating pairs of the eligible pages. */
  ghost predicate IsReported(index: seq<Row>, handoffs: map<nat, Handoff>, pcRange: Option<(nat, nat)>, l: Link) {
    exists page: nat :: IsEligible(index, page, pcRange) && PageReports(index, handoffs, page, l)
  }

  /** The accesses of the page that reach into an access and come before it. */
  ghost function Crowd(index: seq<Row>, page: nat, a: Access): set<Access> {
    set r | r in index && r.1 == page && InOrder(r.0, a) && r.0.End() > a.address :: r.0
  }

  /** On some eligible page an access meets at least so many active ones. */
  ghost predicate IsCrowded(index: seq<Row>, pcRange: Option<(nat, nat)>, maxActive: nat) {
    exists page: nat, a :: IsEligible(index, page, pcRange) && Filed(index, page, a)
      && |Crowd(index, page, a)| >= maxActive
  }

  lemma LowerIsEarlier(rows: seq<Access>, i: nat, k: nat)
    requires SortedRows(rows) && i < |rows| && k < |rows|
    ensures InOrder(rows[i], rows[k]) ==> i < k
  {
  }

  lemma ActiveRowsAreCrowd(index: seq<Row>, page: nat, rows: seq<Access>, k: nat)
    requires IsPageOf(index, page, rows) && k < |rows|
    ensures ActiveRows(rows, k) == Crowd(index, page, rows[k])
  {
    forall a ensures a in ActiveRows(rows, k) <==> a in Crowd(index, page, rows[k]) {
      if a in ActiveRows(rows, k) {
        var i :| 0 <= i < k && rows[..k][i] == a;
        assert rows[i] == a && Filed(index, page, a) && InOrder(rows[i], rows[k]);
        assert (a, page).0 in Crowd(index, page, rows[k]);
      }
      if a in Crowd(index, page, rows[k]) {
        assert Filed(index, page, a);
        var i :| 0 <= i < |rows| && rows[i] == a;
        LowerIsEarlier(rows, i, k);
        assert rows[..k][i] == a;
      }
    }
  }

  lemma CrowdedPage(index: seq<Row>, pcRange: Option<(nat, nat)>, page: nat, rows: seq<Access>, maxActive: nat)
    requires IsPageOf(index, page, rows) && IsEligible(index, page, pcRange)
    ensures IsCrowdedUpTo(rows, |rows|, maxActive)
       <==> exists a :: Filed(index, page, a) && |Crowd(index, page, a)| >= maxActive
  {
    forall k | 0 <= k < |rows| ensures ActiveRows(rows, k) == Crowd(index, page, rows[k])
      && Filed(index, page, rows[k]) {
      ActiveRowsAreCrowd(index, page, rows, k);
    }
    if a :| Filed(index, page, a) && |Crowd(index, page, a)| >= maxActive {
      var k :| 0 <= k < |rows| && rows[k] == a;
      assert |ActiveRows(rows, k)| >= maxActive;
    }
  }

  ghost function PageMembers(index: seq<Row>, page: nat): set<Access> {
    set r | r in index && r.1 == page :: r.0
  }

  /** A page of few accesses cannot be crowded. */
  lemma SmallPagesAreNotCrowded(index: seq<Row>, pcRange: Option<(nat, nat)>, maxActive: nat)
    requires forall page: nat :: |PageMembers(index, page)| <= maxActive
    ensures !IsCrowded(index, pcRange, maxActive)
  {
    forall page: nat, a | Filed(index, page, a) ensures |Crowd(index, page, a)| < maxActive {
      assert (a, page).0 in PageMembers(index, page) && a !in Crowd(index, page, a);
      SmallerSet(Crowd(index, page, a), PageMembers(index, page), a);
    }
  }

  lemma SmallerSet<T>(s: set<T>, t: set<T>, x: T)
    requires s <= t && x in t && x !in s
    ensures |s| < |t|
  {
    assert |t - s| > 0 && t == s + (t - s) && |t| == |s| + |t - s|;
  }

  ghost predicate NoneCrowded(index: seq<Row>, pages: seq<nat>, n: nat, maxActive: nat) {
    forall i, a :: 0 <= i < n <= |pages| && Filed(index, pages[i], a) ==> |Crowd(index, pages[i], a)| < maxActive
  }

  lemma NextPageCrowd(index: seq<Row>, pcRange: Option<(nat, nat)>, pages: seq<nat>, n: nat, rows: seq<Access>,
                      maxActive: nat)
    requires n < |pages| && IsPageOf(index, pages[n], rows) && IsEligible(index, pages[n], pcRange)
    ensures IsCrowdedUpTo(rows, |rows|, maxActive) ==> IsCrowded(index, pcRange, maxActive)
    ensures !IsCrowdedUpTo(rows, |rows|, maxActive) && NoneCrowded(index, pages, n, maxActive)
      ==> NoneCrowded(index, pages, n + 1, maxActive)
  {
    CrowdedPage(index, pcRange, pages[n], rows, maxActive);
  }

  /** What the search has come to after n pages, or ends with. */
  ghost predicate SearchIs(outcome: Outcome, index: seq<Row>, handoffs: map<nat, Handoff>,
                           pcRange: Option<(nat, nat)>, pages: seq<nat>, n: nat, found: seq<Link>, limit: Option<nat>,
                           maxActive: nat) {
    match outcome
    case Complete =>
      && FoundPages(index, handoffs, pages, n, found) && NoneCrowded(index, pages, n, maxActive)
      && (found == [] || StaysBelow(limit, |found|))
    case LimitReached =>
      FoundOnlyPages(index, handoffs, pages, n, found) && IsFull(limit, |found|)
    case TooManyActive =>
      FoundOnlyPages(index, handoffs, pages, n, found) && IsCrowded(index, pcRange, maxActive)
  }

  method SearchNext(index: seq<Row>, handoffs: map<nat, Handoff>, pcRange: Option<(nat, nat)>, pages: seq<nat>,
                    n: nat, found: seq<Link>, limit: Option<nat>, maxActive: nat)
    returns (found': seq<Link>, outcome: Outcome)
    requires ValidIndex(index) && ValidHandoffs(handoffs) && NoRepeats(pages) && n < |pages|
    requires IsEligible(index, pages[n], pcRange)
    requires SearchIs(Complete, index, handoffs, pcRange, pages, n, found, limit, maxActive)
    ensures SearchIs(outcome, index, handoffs, pcRange, pages, n + 1, found', limit, maxActive)
  {
    var rows := RowsOfPage(index, pages[n]);
    assert IsPageOf(index, pages[n], rows);
    var more;
    more, outcome := SweepPage(handoffs, pages[n], rows, |found|, limit, maxActive);
    NextPage(index, handoffs, pages, n, found, rows, more);
    NextPageCrowd(index, pcRange, pages, n, rows, maxActive);
    found' := found + more;
  }

  /** Each communicating pair of filed accesses once. The search stops early only at the limit or on a crowded
      page, and reports nothing else in any case. */
  method FindCommunicationEdges(threads: set<nat>, index: seq<Row>, handoffs: map<nat, Handoff>,
                                pcRange: Option<(nat, nat)>, limit: Option<nat>, maxActive: nat)
    returns (found: seq<Link>, outcome: Outcome)
    requires ValidIndex(index) && ValidHandoffs(handoffs) && forall r :: r in index ==> r.0.thread in threads
    ensures NoRepeats(found) && forall l :: l in found ==> IsReported(index, handoffs, pcRange, l)
    ensures outcome == Complete ==> forall l :: l in found <==> IsReported(index, handoffs, pcRange, l)
    ensures outcome == Complete ==> !IsCrowded(index, pcRange, maxActive)
    ensures outcome == Complete ==> found == [] || limit == None || |found| < limit.value
    ensures outcome == LimitReached ==> limit.Some? && |found| == if limit.value == 0 then 1 else limit.value
    ensures outcome == TooManyActive ==> IsCrowded(index, pcRange, maxActive)
  {
    found, outcome := [], Complete;
    if |threads| < 2 {
      OneThreadIsSilent(threads, index, handoffs, pcRange);
      return;
    }
    var pages := EligiblePages(index, pcRange);
    for n := 0 to |pages|
      invariant SearchIs(Complete, index, handoffs, pcRange, pages, n, found, limit, maxActive)
    {
      found, outcome := SearchNext(index, handoffs, pcRange, pages, n, found, limit, maxActive);
      if outcome != Complete {
        PagesAreReported(index, handoffs, pcRange, pages, n + 1);
        return;
      }
    }
    outcome := Complete;
    PagesAreReported(index, handoffs, pcRange, pages, |pages|);
    EligibleAreListed(index, pcRange, pages, maxActive);
  }

  lemma EligibleAreListed(index: seq<Row>, pcRange: Option<(nat, nat)>, pages: seq<nat>, maxActive: nat)
    requires (forall p: nat :: p in pages <==> IsEligible(index, p, pcRange))
      && NoneCrowded(index, pages, |pages|, maxActive)
    ensures !IsCrowded(index, pcRange, maxActive)
  {
    forall page: nat, a | IsEligible(index, page, pcRange) && Filed(index, page, a)
      ensures |Crowd(index, page, a)| < maxActive {
      assert page in pages;
      var i :| 0 <= i < |pages| && pages[i] == page;
    }
  }

  lemma OneThreadIsSilent(threads: set<nat>, index: seq<Row>, handoffs: map<nat, Handoff>, pcRange: Option<(nat, nat)>)
    requires |threads| < 2 && forall r :: r in index ==> r.0.thread in threads
    ensures forall l :: !IsReported(index, handoffs, pcRange, l)
    ensures forall page: nat :: !IsEligible(index, page, pcRange)
  {
    forall page: nat ensures !IsEligible(index, page, pcRange) {
      if rows :| IsPageOf(index, page, rows) && Eligible(rows, pcRange) {
        var a: Access :| a in rows && exists b: Access :: b in rows && a.thread != b.thread;
        var b: Access :| b in rows && a.thread != b.thread;
        assert Filed(index, page, a) && Filed(index, page, b);
        assert (a, page) in index && (b, page) in index;
        TwoOfFewer(threads, a.thread, b.thread);
      }
    }
  }

  lemma TwoOfFewer(s: set<nat>, a: nat, b: nat)
    requires a in s && b in s && |s| < 2
    ensures a == b
  {
    assert |s - {a}| == |s| - 1;
    assert s - {a} == {};
  }

  lemma PagesAreReported(index: seq<Row>, handoffs: map<nat, Handoff>, pcRange: Option<(nat, nat)>, pages: seq<nat>,
                         n: nat)
    requires n <= |pages| && forall p: nat :: p in pages <==> IsEligible(index, p, pcRange)
    ensures forall l :: PagesReport(index, handoffs, pages, n, l) ==> IsReported(index, handoffs, pcRange, l)
    ensures n == |pages| ==> forall l ::
      IsReported(index, handoffs, pcRange, l) ==> PagesReport(index, handoffs, pages, n, l)
  {
    forall l | PagesReport(index, handoffs, pages, n, l) ensures IsReported(index, handoffs, pcRange, l) {
      var i :| 0 <= i < n && PageReports(index, handoffs, pages[i], l);
      assert pages[i] in pages;
    }
    if n == |pages| {
      forall l | IsReported(index, handoffs, pcRange, l) ensures PagesReport(index, handoffs, pages, n, l) {
        var page: nat :| IsEligible(index, page, pcRange) && PageReports(index, handoffs, page, l);
        assert page in pages;
      }
    }
  }

  // ----- The index agrees with brute force -----

  lemma HomePageIsTouched(handoffs: map<nat, Handoff>, a: Access, b: Access)
    requires a.size > 0 && b.size > 0 && Communicates(handoffs, a, b)
    ensures Touches(a, HomePage(a, b)) && Touches(b, HomePage(a, b))
  {
    var start := Max(a.address, b.address);
    assert start <= a.End() - 1 && start <= b.End() - 1;
    DivisionRises(a.address, start);
    DivisionRises(b.address, start);
    DivisionRises(start, a.End() - 1);
    DivisionRises(start, b.End() - 1);
  }

  lemma DivisionRises(x: nat, y: nat)
    requires x <= y
    ensures x / PAGE <= y / PAGE
  {
  }

  lemma IndexIsValid(accesses: seq<Access>, maxPages: nat, index: seq<Row>)
    requires ValidAccesses(accesses) && IsPageIndex(accesses, maxPages, index)
    ensures ValidIndex(index)
  {
    forall a, b, p: nat, q: nat | (a, p) in index && (b, q) in index && a.id == b.id ensures a == b {
      assert a in accesses && b in accesses;
    }
  }

  ghost predicate BruteForce(accesses: seq<Access>, maxPages: nat, handoffs: map<nat, Handoff>, l: Link)
    requires forall a :: a in accesses ==> a.size > 0
  {
    exists a, b :: a in accesses && b in accesses && IsFiled(a, maxPages) && IsFiled(b, maxPages)
                   && Communicates(handoffs, a, b) && l == LinkOf(a, b)
  }

  lemma ReportedIsBruteForce(accesses: seq<Access>, maxPages: nat, index: seq<Row>, handoffs: map<nat, Handoff>,
                             l: Link)
    requires ValidAccesses(accesses) && IsPageIndex(accesses, maxPages, index) && IsReported(index, handoffs, None, l)
    ensures BruteForce(accesses, maxPages, handoffs, l)
  {
    var page: nat :| IsEligible(index, page, None) && PageReports(index, handoffs, page, l);
    var a, b :| Filed(index, page, a) && Filed(index, page, b) && Reports(handoffs, page, a, b, l);
    assert (a, page) in index && (b, page) in index;
  }

  lemma BruteForceIsReported(accesses: seq<Access>, maxPages: nat, index: seq<Row>, handoffs: map<nat, Handoff>,
                             a: Access, b: Access, l: Link)
    requires ValidAccesses(accesses) && IsPageIndex(accesses, maxPages, index)
    requires a in accesses && b in accesses && IsFiled(a, maxPages) && IsFiled(b, maxPages)
    requires Communicates(handoffs, a, b) && l == LinkOf(a, b)
    ensures IsReported(index, handoffs, None, l)
  {
    var page := HomePage(a, b);
    HomePageIsTouched(handoffs, a, b);
    assert (a, page) in index && (b, page) in index;
    assert Filed(index, page, a) && Filed(index, page, b) && Reports(handoffs, page, a, b, l);
    IndexIsValid(accesses, maxPages, index);
    HomePageIsEligible(index, page, a, b);
  }

  /** Without a filter on code, the sweep over the page index reports exactly the communicating pairs. */
  lemma SweepAgreesWithBruteForce(accesses: seq<Access>, maxPages: nat, index: seq<Row>, handoffs: map<nat, Handoff>,
                                  l: Link)
    requires ValidAccesses(accesses) && IsPageIndex(accesses, maxPages, index)
    ensures IsReported(index, handoffs, None, l) <==> BruteForce(accesses, maxPages, handoffs, l)
  {
    if IsReported(index, handoffs, None, l) { ReportedIsBruteForce(accesses, maxPages, index, handoffs, l); }
    if a, b :| a in accesses && b in accesses && IsFiled(a, maxPages) && IsFiled(b, maxPages)
               && Communicates(handoffs, a, b) && l == LinkOf(a, b) {
      BruteForceIsReported(accesses, maxPages, index, handoffs, a, b, l);
    }
  }

  lemma HomePageIsEligible(index: seq<Row>, page: nat, a: Access, b: Access)
    requires ValidIndex(index) && Filed(index, page, a) && Filed(index, page, b)
    requires a.thread != b.thread && (a.Writes() || b.Writes())
    ensures IsEligible(index, page, None)
  {
    var rows := RowsOfPage(index, page);
    assert a in rows && b in rows;
  }

  lemma BruteForcePair(accesses: seq<Access>, maxPages: nat, handoffs: map<nat, Handoff>, l: Link)
    returns (a: Access, b: Access)
    requires ValidAccesses(accesses) && BruteForce(accesses, maxPages, handoffs, l)
    ensures a in accesses && b in accesses && Communicates(handoffs, a, b) && l == LinkOf(a, b)
  {
    a, b :| a in accesses && b in accesses && IsFiled(a, maxPages) && IsFiled(b, maxPages)
            && Communicates(handoffs, a, b) && l == LinkOf(a, b);
  }

  lemma SameIdSameAccess(accesses: seq<Access>, a: Access, b: Access)
    requires ValidAccesses(accesses) && a in accesses && b in accesses && a.id == b.id
    ensures a == b
  {
  }

  /** No pair of accesses is reported twice, even if it overlaps on several pages. */
  lemma PairIsReportedOnce(accesses: seq<Access>, maxPages: nat, handoffs: map<nat, Handoff>, l: Link, m: Link)
    requires ValidAccesses(accesses)
    requires BruteForce(accesses, maxPages, handoffs, l) && BruteForce(accesses, maxPages, handoffs, m)
    requires l.first == m.first && l.second == m.second
    ensures l == m
  {
    var a, b := BruteForcePair(accesses, maxPages, handoffs, l);
    var c, d := BruteForcePair(accesses, maxPages, handoffs, m);
    LinkDeterminesPair(a, b, c, d);
    if a.id == c.id {
      SameIdSameAccess(accesses, a, c);
      SameIdSameAccess(accesses, b, d);
    } else {
      SameIdSameAccess(accesses, a, d);
      SameIdSameAccess(accesses, b, c);
    }
  }
}

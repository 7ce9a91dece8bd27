/** What the communication edges mean for the accesses themselves, byte by byte and ticket by ticket. */
module Sharing {
  import opened Events
  import opened Communication

  /** The access touches this byte. */
  predicate Reaches(a: Access, byte: nat) {
    a.address <= byte < a.address + a.size
  }

  predicate CanWrite(a: Access) {
    a.kind == STORE || a.kind == ATOMIC_RMW
  }

  predicate IsLoadOrStore(a: Access) {
    a.kind == LOAD || a.kind == STORE || a.kind == ATOMIC_RMW
  }

  /** The worker has evidence that names the parent, and both accesses lie before its start, or the parent's after
      the join and the worker's not after the end. */
  predicate IsHandedOff(handoffs: map<nat, Handoff>, worker: Access, parent: Access) {
    && worker.thread in handoffs && handoffs[worker.thread].parent == parent.thread
    && IsLoadOrStore(worker) && IsLoadOrStore(parent)
    && (|| parent.ticket < handoffs[worker.thread].startTicket
        || (handoffs[worker.thread].joinTicket < parent.ticket && worker.ticket <= handoffs[worker.thread].endTicket))
  }

  /** Both lie in allocations of the same name, one freed before the other was made. */
  predicate AreOfTwoLives(a: Access, b: Access) {
    match (a.allocation, b.allocation)
    case (Some(Allocation(stem, n)), Some(Allocation(other, m))) => stem == other && n != m
    case _ => false
  }

  /** The store's own reads are indexed always, other accesses if they touch few enough pages of 4096 bytes. */
  predicate IsIndexed(a: Access, maxPages: nat)
    requires a.size > 0
  {
    a.isMadeUp || (a.address + a.size - 1) / 4096 < a.address / 4096 + maxPages
  }

  /** The two accesses can see each other's effects. */
  ghost predicate Share(accesses: seq<Access>, maxPages: nat, handoffs: map<nat, Handoff>, a: Access, b: Access)
    requires forall x :: x in accesses ==> x.size > 0
  {
    && a in accesses && b in accesses && IsIndexed(a, maxPages) && IsIndexed(b, maxPages)
    && a.thread != b.thread && (CanWrite(a) || CanWrite(b)) && !AreOfTwoLives(a, b)
    && !IsHandedOff(handoffs, a, b) && !IsHandedOff(handoffs, b, a)
    && exists byte: nat :: Reaches(a, byte) && Reaches(b, byte)
  }

  /** The link names the two accesses and holds exactly the bytes they share. */
  ghost predicate Describes(l: Link, a: Access, b: Access) {
    && ((l.first == a.id && l.second == b.id) || (l.first == b.id && l.second == a.id)) && l.first <= l.second
    && forall byte: nat :: l.address <= byte < l.address + l.size <==> Reaches(a, byte) && Reaches(b, byte)
  }

  /** Some indexed access of the wanted code touches the page. */
  ghost predicate TouchesPage(accesses: seq<Access>, maxPages: nat, code: Option<(nat, nat)>, page: nat)
    requires forall x :: x in accesses ==> x.size > 0
  {
    code.Some? ==> exists c ::
      && c in accesses && IsIndexed(c, maxPages) && code.value.0 <= c.pc < code.value.1
      && exists byte: nat :: Reaches(c, byte) && byte / 4096 == page
  }

  // ----- Each notion agrees with the one that the search uses -----

  lemma SharedBytes(a: Access, b: Access)
    ensures (exists byte: nat :: Reaches(a, byte) && Reaches(b, byte))
       <==> Max(a.address, b.address) < Min(a.End(), b.End())
  {
    if Max(a.address, b.address) < Min(a.End(), b.End()) {
      assert Reaches(a, Max(a.address, b.address)) && Reaches(b, Max(a.address, b.address));
    }
  }

  lemma HandoffByTickets(handoffs: map<nat, Handoff>, a: Access, b: Access)
    requires ValidHandoffs(handoffs) && a.thread != b.thread
    ensures IsHandoff(handoffs, a, b) <==> IsHandedOff(handoffs, a, b) || IsHandedOff(handoffs, b, a)
  {
  }

  lemma IndexedIsFiled(a: Access, maxPages: nat)
    requires a.size > 0
    ensures IsFiled(a, maxPages) <==> IsIndexed(a, maxPages)
  {
  }

  lemma ShareIsCommunication(accesses: seq<Access>, maxPages: nat, handoffs: map<nat, Handoff>, a: Access, b: Access)
    requires ValidHandoffs(handoffs) && (forall x :: x in accesses ==> x.size > 0) && a in accesses && b in accesses
    ensures Share(accesses, maxPages, handoffs, a, b)
       <==> IsFiled(a, maxPages) && IsFiled(b, maxPages) && Communicates(handoffs, a, b)
  {
    SharedBytes(a, b);
    IndexedIsFiled(a, maxPages);
    IndexedIsFiled(b, maxPages);
    if a.thread != b.thread { HandoffByTickets(handoffs, a, b); }
  }

  lemma LinkDescribes(a: Access, b: Access, l: Link)
    requires Max(a.address, b.address) < Min(a.End(), b.End())
    ensures Describes(LinkOf(a, b), a, b)
    ensures Describes(l, a, b) ==> l == LinkOf(a, b)
  {
    var first, last := Max(a.address, b.address), Min(a.End(), b.End()) - 1;
    assert forall byte: nat :: Reaches(a, byte) && Reaches(b, byte) <==> first <= byte <= last;
    if Describes(l, a, b) {
      assert Reaches(a, first) && Reaches(b, first) && Reaches(a, last) && Reaches(b, last);
      assert !(Reaches(a, last + 1) && Reaches(b, last + 1));
      assert l.address <= first && last < l.address + l.size;
      assert Reaches(a, l.address) && Reaches(b, l.address);
      assert Reaches(a, l.address + l.size - 1) && Reaches(b, l.address + l.size - 1);
    }
  }

  lemma TouchedByByte(a: Access, page: nat)
    requires a.size > 0
    ensures Touches(a, page) <==> exists byte: nat :: Reaches(a, byte) && byte / 4096 == page
  {
    if Touches(a, page) {
      var byte := Max(a.address, page * 4096);
      assert Reaches(a, byte) && byte / 4096 == page;
    }
    if byte: nat :| Reaches(a, byte) && byte / 4096 == page {
      DivisionRises(a.address, byte);
      DivisionRises(byte, a.End() - 1);
    }
  }

  /** The page of a communicating pair is selected exactly if the wanted code touches it. */
  lemma SelectedByCode(accesses: seq<Access>, maxPages: nat, index: seq<Row>, code: Option<(nat, nat)>, page: nat,
                       a: Access, b: Access)
    requires ValidAccesses(accesses) && IsPageIndex(accesses, maxPages, index)
    requires Filed(index, page, a) && Filed(index, page, b) && a.thread != b.thread && (CanWrite(a) || CanWrite(b))
    ensures IsEligible(index, page, code) <==> TouchesPage(accesses, maxPages, code, page)
  {
    IndexIsValid(accesses, maxPages, index);
    var rows := RowsOfPage(index, page);
    EligibilityIsUnique(index, page, code, rows);
    assert a in rows && b in rows;
    forall c | c in accesses
      ensures c in rows <==> IsIndexed(c, maxPages) && (exists byte: nat :: Reaches(c, byte) && byte / 4096 == page) {
      IndexedIsFiled(c, maxPages);
      TouchedByByte(c, page);
      assert Filed(index, page, c) <==> (c, page) in index;
    }
    forall c | c in rows ensures c in accesses { assert (c, page) in index; }
  }

  /** The search is to report exactly the links that describe two sharing accesses. */
  lemma ReportedIsShared(accesses: seq<Access>, maxPages: nat, index: seq<Row>, handoffs: map<nat, Handoff>,
                         code: Option<(nat, nat)>, l: Link)
    requires ValidAccesses(accesses) && IsPageIndex(accesses, maxPages, index) && ValidHandoffs(handoffs)
    requires IsReported(index, handoffs, code, l)
    ensures IsShared(accesses, maxPages, handoffs, code, l)
  {
    var page: nat :| IsEligible(index, page, code) && PageReports(index, handoffs, page, l);
    var a, b :| Filed(index, page, a) && Filed(index, page, b) && Reports(handoffs, page, a, b, l);
    assert (a, page) in index && (b, page) in index;
    ShareIsCommunication(accesses, maxPages, handoffs, a, b);
    LinkDescribes(a, b, l);
    SelectedByCode(accesses, maxPages, index, code, page, a, b);
  }

  lemma SharedIsReported(accesses: seq<Access>, maxPages: nat, index: seq<Row>, handoffs: map<nat, Handoff>,
                         code: Option<(nat, nat)>, l: Link)
    requires ValidAccesses(accesses) && IsPageIndex(accesses, maxPages, index) && ValidHandoffs(handoffs)
    requires IsShared(accesses, maxPages, handoffs, code, l)
    ensures IsReported(index, handoffs, code, l)
  {
    var a, b :| Share(accesses, maxPages, handoffs, a, b) && Describes(l, a, b);
    ShareIsCommunication(accesses, maxPages, handoffs, a, b);
    LinkDescribes(a, b, l);
    HomePageIsTouched(handoffs, a, b);
    var page := HomePage(a, b);
    assert (a, page) in index && (b, page) in index && page == l.address / 4096;
    assert Filed(index, page, a) && Filed(index, page, b);
    SelectedByCode(accesses, maxPages, index, code, page, a, b);
    assert Reports(handoffs, page, a, b, l);
  }

  /** A link of two sharing accesses, on whose first page there is an access of the wanted code. */
  ghost predicate IsShared(accesses: seq<Access>, maxPages: nat, handoffs: map<nat, Handoff>,
                           code: Option<(nat, nat)>, l: Link)
    requires forall x :: x in accesses ==> x.size > 0
  {
    && TouchesPage(accesses, maxPages, code, l.address / 4096)
    && exists a, b :: Share(accesses, maxPages, handoffs, a, b) && Describes(l, a, b)
  }

  /** A completed search over the index of the accesses finds exactly the bytes that threads share. */
  lemma CompleteSearchFindsSharing(accesses: seq<Access>, maxPages: nat, index: seq<Row>, handoffs: map<nat, Handoff>,
                                   code: Option<(nat, nat)>, found: seq<Link>)
    requires ValidAccesses(accesses) && IsPageIndex(accesses, maxPages, index) && ValidHandoffs(handoffs)
    requires forall l :: l in found <==> IsReported(index, handoffs, code, l)
    ensures forall l :: l in found <==> IsShared(accesses, maxPages, handoffs, code, l)
  {
    forall l ensures IsReported(index, handoffs, code, l) <==> IsShared(accesses, maxPages, handoffs, code, l) {
      if IsReported(index, handoffs, code, l) { ReportedIsShared(accesses, maxPages, index, handoffs, code, l); }
      if IsShared(accesses, maxPages, handoffs, code, l) {
        SharedIsReported(accesses, maxPages, index, handoffs, code, l);
      }
    }
  }
}

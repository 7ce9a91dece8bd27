/** What the trace store makes of the records: an event for each, and a read for each successful futex wait. */
module StoredTrace {
  import opened Events
  import opened TraceFormat
  import opened TraceValidation

  const FUTEX: nat := 202
  const FUTEX_WORD: nat := 4

  /** The syscall that a thread is inside of; the store looks at nothing but its number and arguments. */
  datatype Call = Call(number: nat, arguments: map<nat, nat>)

  type Calls = map<nat, Call>

  /** Wait or wait-bitset, whatever the bits for private words (0x80) and the realtime clock (0x100) say. */
  predicate IsWaitOperation(operation: nat) {
    operation - operation / 0x80 % 4 * 0x80 in {0, 9}
  }

  predicate AreComplete(arguments: map<nat, nat>) {
    && 0 in arguments && 1 in arguments && 2 in arguments && 3 in arguments && 4 in arguments && 5 in arguments
  }

  /** The arguments have indices below six, so if there are six of them they are complete. */
  predicate IsFutexWait(call: Call) {
    call.number == FUTEX && AreComplete(call.arguments) && IsWaitOperation(call.arguments[1])
  }

  // ----- The store -----

  /** Unlike validation, the store pairs by thread and does not compare numbers. */
  function NextCalls(calls: Calls, r: Record): Calls {
    if r.kind == SYSCALL then calls[r.thread := Call(r.aux, map[])]
    else if r.kind == SYSCALL_ARG && r.thread in calls && r.aux < 6 then
      calls[r.thread := calls[r.thread].(arguments := calls[r.thread].arguments[r.aux := r.address])]
    else if r.kind == SYSCALL_EXIT then calls - {r.thread}
    else calls
  }

  /** A successful wait read its word: the store adds that read in the place of the return. */
  function WaitRead(calls: Calls, r: Record): seq<TraceEvent> {
    if r.kind == SYSCALL_EXIT && r.thread in calls && r.value == 0 then
      var call := calls[r.thread];
      if IsFutexWait(call) then
        [TraceEvent(r.thread, r.sequence, r.ticket, FUTEX_WAIT, call.arguments[0], FUTEX_WORD, 0, false)]
      else []
    else []
  }

  function CallsAfter(calls: Calls, records: seq<Record>): Calls {
    if records == [] then calls
    else NextCalls(CallsAfter(calls, records[..|records| - 1]), records[|records| - 1])
  }

  function WaitReads(calls: Calls, records: seq<Record>): seq<TraceEvent> {
    if records == [] then []
    else
      var n := |records| - 1;
      WaitReads(calls, records[..n]) + WaitRead(CallsAfter(calls, records[..n]), records[n])
  }

  /** The rows for the records, in their order. */
  function Rows(records: seq<Record>): seq<TraceEvent> {
    if records == [] then []
    else
      var n := |records| - 1;
      Rows(records[..n]) + [EventOf(records[n])] + WaitRead(CallsAfter(map[], records[..n]), records[n])
  }

  ghost predicate IsRecorded(records: seq<Record>, e: TraceEvent) {
    exists r :: r in records && EventOf(r) == e
  }

  method AddEvents(records: seq<Record>) returns (rows: seq<TraceEvent>)
    ensures rows == Rows(records)
    ensures forall e :: e in rows <==> IsRecorded(records, e) || e in WaitReads(map[], records)
  {
    var pending: Calls := map[];
    rows := [];
    for n := 0 to |records|
      invariant pending == CallsAfter(map[], records[..n])
      invariant rows == Rows(records[..n])
    {
      rows := rows + [EventOf(records[n])] + WaitRead(pending, records[n]);
      pending := NextCalls(pending, records[n]);
      assert records[..n + 1][..n] == records[..n];
    }
    assert records[..|records|] == records;
    forall e ensures e in rows <==> IsRecorded(records, e) || e in WaitReads(map[], records) {
      RowsAreEventsAndReads(records, e);
    }
  }

  lemma RecordedNext(records: seq<Record>, e: TraceEvent)
    requires records != []
    ensures IsRecorded(records, e)
      <==> IsRecorded(records[..|records| - 1], e) || e == EventOf(records[|records| - 1])
  {
    var n := |records| - 1;
    assert records == records[..n] + [records[n]];
    if e == EventOf(records[n]) { assert records[n] in records; }
    if r :| r in records[..n] && EventOf(r) == e { assert r in records; }
  }

  lemma {:induction false} RowsAreEventsAndReads(records: seq<Record>, e: TraceEvent)
    ensures e in Rows(records) <==> IsRecorded(records, e) || e in WaitReads(map[], records)
  {
    if records != [] {
      RowsAreEventsAndReads(records[..|records| - 1], e);
      RecordedNext(records, e);
    }
  }

  // ----- What the window checker gets -----

  /** Windows hold accesses and fences only. */
  predicate CanBeInWindow(e: TraceEvent) {
    e.IsMemory() || e.kind.IsBoundary()
  }

  ghost predicate IsReadOfReturn(e: TraceEvent, r: Record) {
    && r.kind == SYSCALL_EXIT && e.kind == FUTEX_WAIT && e.size == FUTEX_WORD
    && e.thread == r.thread && e.sequence == r.sequence
  }

  /** A made-up read belongs to one return. */
  lemma {:induction false} ReturnOfRead(calls: Calls, records: seq<Record>, e: TraceEvent) returns (i: nat)
    requires e in WaitReads(calls, records)
    ensures i < |records| && IsReadOfReturn(e, records[i])
    ensures WaitRead(CallsAfter(calls, records[..i]), records[i]) == [e]
  {
    var n := |records| - 1;
    if e in WaitReads(calls, records[..n]) {
      i := ReturnOfRead(calls, records[..n], e);
      assert records[..n][..i] == records[..i];
    } else {
      i := n;
    }
  }

  lemma ReadsDifferInNumber(all: seq<Record>, a: TraceEvent, b: TraceEvent)
    requires AreNumbered(all) && a in WaitReads(map[], all) && b in WaitReads(map[], all)
    requires a.thread == b.thread && a.sequence == b.sequence
    ensures a == b
  {
    var i := ReturnOfRead(map[], all, a);
    var j := ReturnOfRead(map[], all, b);
    if i < j { NumbersIdentify(all, i, j); }
    if j < i { NumbersIdentify(all, j, i); }
    assert [a] == [b];
  }

  lemma RecordOf(all: seq<Record>, e: TraceEvent) returns (r: Record)
    requires IsRecorded(all, e)
    ensures r in all && e == EventOf(r) && e.thread == r.thread && e.sequence == r.sequence
  {
    r :| r in all && EventOf(r) == e;
  }

  lemma ReturnIsNotInWindow(r: Record)
    requires r.kind == SYSCALL_EXIT
    ensures !CanBeInWindow(EventOf(r))
  {
  }

  /** A made-up read takes the number of a return, which is no access or fence. */
  lemma ReadIsNotRecorded(all: seq<Record>, a: TraceEvent, b: TraceEvent)
    requires AreNumbered(all) && a in WaitReads(map[], all) && IsRecorded(all, b) && CanBeInWindow(b)
    ensures !(a.thread == b.thread && a.sequence == b.sequence)
  {
    var i := ReturnOfRead(map[], all, a);
    var s := RecordOf(all, b);
    ReturnIsNotInWindow(all[i]);
    if a.thread == b.thread && a.sequence == b.sequence { SameNumberSameRecord(all, all[i], s); }
  }

  lemma RecordedDifferInNumber(all: seq<Record>, a: TraceEvent, b: TraceEvent)
    requires AreNumbered(all) && IsRecorded(all, a) && IsRecorded(all, b)
    requires a.thread == b.thread && a.sequence == b.sequence
    ensures a == b
  {
    var r := RecordOf(all, a);
    var s := RecordOf(all, b);
    SameNumberSameRecord(all, r, s);
  }

  lemma RowsDifferInNumber(all: seq<Record>, a: TraceEvent, b: TraceEvent)
    requires AreNumbered(all) && a in Rows(all) && b in Rows(all) && CanBeInWindow(a) && CanBeInWindow(b)
    requires a.thread == b.thread && a.sequence == b.sequence
    ensures a == b
  {
    RowsAreEventsAndReads(all, a);
    RowsAreEventsAndReads(all, b);
    if a in WaitReads(map[], all) && b in WaitReads(map[], all) {
      ReadsDifferInNumber(all, a, b);
    } else if a in WaitReads(map[], all) {
      ReadIsNotRecorded(all, a, b);
    } else if b in WaitReads(map[], all) {
      ReadIsNotRecorded(all, b, a);
    } else {
      RecordedDifferInNumber(all, a, b);
    }
  }

  lemma AccessIsSound(minor: nat, r: Record)
    requires FieldsAreSound(minor, r) && EventOf(r).IsMemory()
    ensures 0 < r.size <= ADDRESS_SPACE - r.address
  {
  }

  lemma RecordedIsSound(files: seq<TraceFile>, e: TraceEvent)
    requires IsWellFormed(files) && IsRecorded(AllRecords(files), e) && e.IsMemory()
    ensures e.size > 0 && e.EndAddress() <= ADDRESS_SPACE
  {
    var r := RecordOf(AllRecords(files), e);
    var f := RecordIsInFile(files, r);
    AccessIsSound(f.minor, r);
  }

  lemma RowIsSound(files: seq<TraceFile>, e: TraceEvent)
    requires IsWellFormed(files) && e in Rows(AllRecords(files)) && e.IsMemory()
    ensures e.size > 0
    ensures e.EndAddress() <= ADDRESS_SPACE || e in WaitReads(map[], AllRecords(files))
  {
    RowsAreEventsAndReads(AllRecords(files), e);
    if e in WaitReads(map[], AllRecords(files)) {
      var i := ReturnOfRead(map[], AllRecords(files), e);
    } else {
      RecordedIsSound(files, e);
    }
  }

  /** Whatever accesses and fences are picked from the stored form of a well-formed trace, they are what the window
      checker assumes. Only a made-up read can reach past the end of the address space: nothing checks its address. */
  lemma StoredTraceIsValid(files: seq<TraceFile>, events: seq<TraceEvent>)
    requires IsWellFormed(files)
    requires forall i, j :: 0 <= i < j < |events| ==> events[i] != events[j]
    requires forall e :: e in events ==> e in Rows(AllRecords(files)) && CanBeInWindow(e)
    ensures ValidEvents(events)
    ensures forall e :: e in events && e.IsMemory() ==>
      e.EndAddress() <= ADDRESS_SPACE || e in WaitReads(map[], AllRecords(files))
  {
    forall a, b | a in events && b in events && a.thread == b.thread && a.sequence == b.sequence ensures a == b {
      RowsDifferInNumber(AllRecords(files), a, b);
    }
    forall e | e in events && e.IsMemory()
      ensures e.size > 0 && (e.EndAddress() <= ADDRESS_SPACE || e in WaitReads(map[], AllRecords(files))) {
      RowIsSound(files, e);
    }
  }

  // ----- The reads are the waits that validation lets pass -----

  /** The word of a wait that validation saw succeed; it counts on the store to add a read of it. */
  function WaitPlace(o: Observation): seq<(nat, nat)> {
    if o.number == FUTEX && |o.arguments| == 6 && IsWaitOperation(o.arguments[1]) && o.result == Some(0) then
      [(o.thread, o.arguments[0])]
    else []
  }

  function WaitPlaces(observations: seq<Observation>): seq<(nat, nat)> {
    if observations == [] then []
    else
      var n := |observations| - 1;
      WaitPlaces(observations[..n]) + WaitPlace(observations[n])
  }

  function Places(rows: seq<TraceEvent>): seq<(nat, nat)> {
    seq(|rows|, i requires 0 <= i < |rows| => (rows[i].thread, rows[i].address))
  }

  lemma {:induction false} WaitPlacesOfBoth(a: seq<Observation>, b: seq<Observation>)
    ensures WaitPlaces(a + b) == WaitPlaces(a) + WaitPlaces(b)
  {
    if b == [] {
      assert a + b == a;
    } else {
      var n := |b| - 1;
      assert (a + b)[..|a + b| - 1] == a + b[..n];
      WaitPlacesOfBoth(a, b[..n]);
    }
  }

  lemma {:induction false} CallsAfterBoth(calls: Calls, a: seq<Record>, b: seq<Record>)
    ensures CallsAfter(calls, a + b) == CallsAfter(CallsAfter(calls, a), b)
  {
    if b == [] {
      assert a + b == a;
    } else {
      var n := |b| - 1;
      assert (a + b)[..|a + b| - 1] == a + b[..n];
      CallsAfterBoth(calls, a, b[..n]);
    }
  }

  lemma {:induction false} WaitReadsOfBoth(calls: Calls, a: seq<Record>, b: seq<Record>)
    ensures WaitReads(calls, a + b) == WaitReads(calls, a) + WaitReads(CallsAfter(calls, a), b)
  {
    if b == [] {
      assert a + b == a;
    } else {
      var n := |b| - 1;
      assert (a + b)[..|a + b| - 1] == a + b[..n] && (a + b)[|a + b| - 1] == b[n];
      WaitReadsOfBoth(calls, a, b[..n]);
      CallsAfterBoth(calls, a, b[..n]);
    }
  }

  /** The store knows the call that validation is inside of. */
  ghost predicate Knows(calls: Calls, pending: Option<Pending>) {
    pending.Some? ==>
      var p := pending.value;
      p.thread in calls && calls[p.thread] == Call(p.number, p.arguments)
  }

  lemma InOrderOfSix(arguments: map<nat, nat>)
    ensures |InOrder(arguments, 6)| == 6 <==> AreComplete(arguments)
    ensures AreComplete(arguments) ==>
      InOrder(arguments, 6)[0] == arguments[0] && InOrder(arguments, 6)[1] == arguments[1]
  {
    ShorterInOrder(arguments, 2);
    ShorterInOrder(arguments, 3);
    ShorterInOrder(arguments, 4);
    ShorterInOrder(arguments, 5);
    ShorterInOrder(arguments, 6);
    assert 0 in arguments ==> InOrder(arguments, 1) == [arguments[0]];
  }

  lemma ShorterInOrder(arguments: map<nat, nat>, n: nat)
    requires n > 0
    ensures InOrder(arguments, n)
      == InOrder(arguments, n - 1) + if n - 1 in arguments then [arguments[n - 1]] else []
    ensures |InOrder(arguments, n - 1)| <= n - 1
  {
    if n > 1 { ShorterInOrder(arguments, n - 1); }
  }

  /** At a record that fits its frame and thread, both see the same wait or none. */
  lemma WaitStep(calls: Calls, pending: Option<Pending>, r: Record)
    requires Knows(calls, pending) && SyscallProblems(pending, r) == []
    requires IsCallPart(r) ==> IsTakenFor(pending, r.thread)
    ensures Knows(NextCalls(calls, r), NextPending(pending, r))
    ensures Places(WaitRead(calls, r)) == WaitPlaces(Emitted(pending, r))
  {
    if r.kind == SYSCALL_EXIT {
      var p := pending.value;
      InOrderOfSix(p.arguments);
      SingleWaitPlace(Observation(p.thread, p.ticket, p.number, InOrder(p.arguments, 6), Some(r.value)));
    } else {
      UnfinishedIsNoWait(pending);
    }
  }

  lemma SingleWaitPlace(o: Observation)
    ensures WaitPlaces([o]) == WaitPlace(o)
  {
    assert [o][..0] == [];
  }

  /** After these records of a file the store has added the reads of the waits seen so far. */
  ghost predicate HasRead(calls: Calls, records: seq<Record>, n: nat)
    requires n <= |records|
  {
    forall p :: p == records[..n] ==>
      Knows(CallsAfter(calls, p), PendingOf(p)) && Places(WaitReads(calls, p)) == WaitPlaces(FileObservations(p))
  }

  lemma HasReadNext(calls: Calls, records: seq<Record>, n: nat)
    requires n < |records| && HasRead(calls, records, n)
    requires SyscallProblems(PendingOf(records[..n]), records[n]) == []
    requires IsCallPart(records[n]) ==> IsTakenFor(PendingOf(records[..n]), records[n].thread)
    ensures HasRead(calls, records, n + 1)
  {
    assert records[..n + 1] == records[..n] + [records[n]];
    NextWaitIsRead(calls, records[..n], records[n]);
  }

  lemma {:induction false} FileWaitsAreRead(calls: Calls, records: seq<Record>, n: nat)
    requires ArePaired(records) && StaysInThread(records) && n <= |records|
    ensures HasRead(calls, records, n)
  {
    if n > 0 {
      FileWaitsAreRead(calls, records, n - 1);
      FitsItsFrame(records, n - 1);
      HasReadNext(calls, records, n - 1);
    }
  }

  lemma FitsItsFrame(records: seq<Record>, i: nat)
    requires ArePaired(records) && i < |records|
    ensures SyscallProblems(PendingOf(records[..i]), records[i]) == []
  {
    PairedByIndex(records);
    FramesUpTo(records, |records|);
    assert FitsFrame(records, i);
  }

  lemma NextWaitIsRead(calls: Calls, before: seq<Record>, r: Record)
    requires Knows(CallsAfter(calls, before), PendingOf(before))
    requires Places(WaitReads(calls, before)) == WaitPlaces(FileObservations(before))
    requires SyscallProblems(PendingOf(before), r) == []
    requires IsCallPart(r) ==> IsTakenFor(PendingOf(before), r.thread)
    ensures Knows(CallsAfter(calls, before + [r]), PendingOf(before + [r]))
    ensures Places(WaitReads(calls, before + [r])) == WaitPlaces(FileObservations(before + [r]))
  {
    assert (before + [r])[..|before|] == before;
    WaitStep(CallsAfter(calls, before), PendingOf(before), r);
    WaitPlacesOfBoth(FileObservations(before), Emitted(PendingOf(before), r));
  }

  lemma UnfinishedIsNoWait(pending: Option<Pending>)
    ensures WaitPlaces(Finished(pending, None)) == []
  {
    if pending.Some? { assert Finished(pending, None)[..0] == []; }
  }

  /** One file, whatever calls the store still takes for open from the files before. */
  lemma WholeFileWaitsAreRead(calls: Calls, p: seq<Record>)
    requires ArePaired(p) && StaysInThread(p)
    ensures Places(WaitReads(calls, p)) == WaitPlaces(FileObservations(p))
  {
    FileWaitsAreRead(calls, p, |p|);
    assert p[..|p|] == p;
  }

  lemma WaitsOfNextFile(before: seq<Record>, p: seq<Record>, observations: seq<Observation>, own: seq<Observation>,
                        open: seq<Observation>)
    requires Places(WaitReads(map[], before)) == WaitPlaces(observations)
    requires Places(WaitReads(CallsAfter(map[], before), p)) == WaitPlaces(own) && WaitPlaces(open) == []
    ensures Places(WaitReads(map[], before + p)) == WaitPlaces(observations + own + open)
  {
    WaitReadsOfBoth(map[], before, p);
    WaitPlacesOfBoth(observations + own, open);
    WaitPlacesOfBoth(observations, own);
  }

  /** In a trace whose files are sound and keep to their threads, the store adds reads of exactly the words of the
      waits that validation saw succeed, in the same order. */
  lemma {:induction false} WaitsAreRead(files: seq<TraceFile>)
    requires forall f :: f in files ==> IsSoundFile(f) && StaysInThread(f.records)
    ensures Places(WaitReads(map[], AllRecords(files))) == WaitPlaces(TraceObservations(files))
  {
    if files != [] {
      var init, last := files[..|files| - 1], files[|files| - 1];
      forall f | f in init ensures IsSoundFile(f) && StaysInThread(f.records) { assert f in files; }
      assert IsSoundFile(last) && StaysInThread(last.records) by { assert last in files; }
      WaitsAreRead(init);
      ProcessedIffKnown(last.records);
      WholeFileWaitsAreRead(CallsAfter(map[], AllRecords(init)), last.records);
      UnfinishedIsNoWait(PendingOf(last.records));
      WaitsOfNextFile(AllRecords(init), last.records, TraceObservations(init), FileObservations(last.records),
                      Finished(PendingOf(last.records), None));
    }
  }

  // ----- When they differ -----

  const ENTRY := Record(SYSCALL, 0, 1, 1, 0, 0, 0, 0, 0, FUTEX, None)
  const FOREIGN_RETURN := Record(SYSCALL_EXIT, 0, 2, 1, 0, 0, 0, 0, 0, FUTEX, None)

  function Argument(index: nat): Record {
    Record(SYSCALL_ARG, 0, 1, index + 2, 0, 0, ArgumentValue(index), FUTEX, 0, index, None)
  }

  function ArgumentValue(index: nat): nat {
    if index == 0 then 4096 else 0
  }

  /** Thread 1 enters a wait on the word at 4096; n arguments are recorded. */
  function WaitCall(n: nat): seq<Record> {
    if n == 0 then [ENTRY] else WaitCall(n - 1) + [Argument(n - 1)]
  }

  function WaitArguments(n: nat): (arguments: map<nat, nat>)
    ensures forall k: nat :: k in arguments <==> k < n
    ensures forall k: nat :: k in arguments ==> arguments[k] == ArgumentValue(k)
  {
    if n == 0 then map[] else WaitArguments(n - 1)[n - 1 := ArgumentValue(n - 1)]
  }

  /** Thread 1 is inside a wait with the given arguments, as validation sees it. */
  ghost predicate IsWaiting(p: seq<Record>, arguments: map<nat, nat>) {
    PendingOf(p) == Some(Pending(1, 0, FUTEX, arguments)) && FileObservations(p) == []
  }

  /** The same as the store sees it. */
  ghost predicate IsPending(p: seq<Record>, arguments: map<nat, nat>) {
    CallsAfter(map[], p) == map[1 := Call(FUTEX, arguments)] && WaitReads(map[], p) == []
  }

  lemma NextObservations(p: seq<Record>, r: Record)
    ensures PendingOf(p + [r]) == NextPending(PendingOf(p), r)
    ensures FileObservations(p + [r]) == FileObservations(p) + Emitted(PendingOf(p), r)
  {
    assert (p + [r])[..|p|] == p;
  }

  lemma NextReads(p: seq<Record>, r: Record)
    ensures CallsAfter(map[], p + [r]) == NextCalls(CallsAfter(map[], p), r)
    ensures WaitReads(map[], p + [r]) == WaitReads(map[], p) + WaitRead(CallsAfter(map[], p), r)
  {
    assert (p + [r])[..|p|] == p;
  }

  lemma EntryIsWaiting()
    ensures IsWaiting([ENTRY], map[]) && IsPending([ENTRY], map[])
  {
    NextObservations([], ENTRY);
    NextReads([], ENTRY);
    assert [] + [ENTRY] == [ENTRY];
  }

  lemma ArgumentIsTaken(p: seq<Record>, arguments: map<nat, nat>, index: nat)
    requires IsWaiting(p, arguments) && index < 6
    ensures IsWaiting(p + [Argument(index)], arguments[index := ArgumentValue(index)])
  {
    NextObservations(p, Argument(index));
  }

  lemma ArgumentIsStored(p: seq<Record>, arguments: map<nat, nat>, index: nat)
    requires IsPending(p, arguments) && index < 6
    ensures IsPending(p + [Argument(index)], arguments[index := ArgumentValue(index)])
  {
    NextReads(p, Argument(index));
  }

  lemma {:induction false} WaitCallIsWaiting(n: nat)
    requires n <= 6
    ensures IsWaiting(WaitCall(n), WaitArguments(n))
  {
    if n == 0 {
      EntryIsWaiting();
    } else {
      WaitCallIsWaiting(n - 1);
      ArgumentIsTaken(WaitCall(n - 1), WaitArguments(n - 1), n - 1);
    }
  }

  lemma {:induction false} WaitCallIsPending(n: nat)
    requires n <= 6
    ensures IsPending(WaitCall(n), WaitArguments(n))
  {
    if n == 0 {
      EntryIsWaiting();
    } else {
      WaitCallIsPending(n - 1);
      ArgumentIsStored(WaitCall(n - 1), WaitArguments(n - 1), n - 1);
    }
  }

  lemma WaitIsObserved(arguments: map<nat, nat>)
    requires AreComplete(arguments) && arguments[0] == 4096 && arguments[1] == 0
    ensures WaitPlaces(Finished(Some(Pending(1, 0, FUTEX, arguments)), Some(0))) == [(1, 4096)]
  {
    InOrderOfSix(arguments);
    SingleWaitPlace(Observation(1, 0, FUTEX, InOrder(arguments, 6), Some(0)));
  }

  lemma ForeignReturnIsTaken(p: seq<Record>, arguments: map<nat, nat>)
    requires IsWaiting(p, arguments)
    ensures PendingOf(p + [FOREIGN_RETURN]) == None
    ensures FileObservations(p + [FOREIGN_RETURN]) == Finished(Some(Pending(1, 0, FUTEX, arguments)), Some(0))
  {
    NextObservations(p, FOREIGN_RETURN);
  }

  lemma ForeignReturnIsNotStored(p: seq<Record>, arguments: map<nat, nat>)
    requires IsPending(p, arguments)
    ensures WaitReads(map[], p + [FOREIGN_RETURN]) == []
  {
    NextReads(p, FOREIGN_RETURN);
  }

  /** The records one by one, and how many there are of a thread. */
  lemma {:induction false} WaitCallAt(n: nat)
    ensures |WaitCall(n)| == n + 1 && WaitCall(n)[0] == ENTRY
    ensures forall i :: 0 < i <= n ==> WaitCall(n)[i] == Argument(i - 1)
    ensures forall thread :: CountOf(WaitCall(n), thread) == if thread == 1 then n + 1 else 0
  {
    if n > 0 {
      WaitCallAt(n - 1);
      assert WaitCall(n)[..n] == WaitCall(n - 1);
    }
  }

  lemma {:induction false} WaitCallPrefix(n: nat, i: nat)
    requires i < n + 1 == |WaitCall(n)|
    ensures WaitCall(n)[..i + 1] == WaitCall(i)
    decreases n
  {
    if i < n {
      WaitCallAt(n - 1);
      WaitCallPrefix(n - 1, i);
      assert WaitCall(n)[..i + 1] == WaitCall(n - 1)[..i + 1];
    }
  }

  lemma CallIsNumbered(n: nat, records: seq<Record>)
    requires records == WaitCall(n) + [FOREIGN_RETURN]
    ensures AreNumbered(records)
  {
    WaitCallAt(n);
    forall i | 0 <= i < |records| ensures records[i].sequence == CountOf(records[..i], records[i].thread) + 1 {
      if i > 0 {
        WaitCallAt(i - 1);
        WaitCallPrefix(n, i - 1);
        assert records[..i] == WaitCall(i - 1);
      }
    }
  }

  lemma CallIsPaired(n: nat, records: seq<Record>)
    requires records == WaitCall(n) + [FOREIGN_RETURN] && n <= 6
    ensures ArePaired(records)
  {
    WaitCallAt(n);
    forall i | 0 <= i < |records| && (records[i].kind == SYSCALL_ARG || records[i].kind == SYSCALL_EXIT)
      ensures exists e :: FitsCall(records, e, i) {
      assert FitsCall(records, 0, i);
    }
  }

  lemma CallIsSound(n: nat, records: seq<Record>)
    requires records == WaitCall(n) + [FOREIGN_RETURN]
    ensures forall r :: r in records ==> IsKnownKind(r.kind) && FieldsAreSound(2, r)
  {
    WaitCallAt(n);
    forall r | r in records ensures IsKnownKind(r.kind) && FieldsAreSound(2, r) {
      var i :| 0 <= i < |records| && records[i] == r;
    }
  }

  /** What a trace of one file holds and shows. */
  lemma SingleFile(file: TraceFile)
    requires IsSoundFile(file) && AreNumbered(file.records) && PendingOf(file.records) == None
    ensures IsWellFormed([file]) && AllRecords([file]) == file.records
    ensures TraceObservations([file]) == FileObservations(file.records)
  {
    OneSoundFile(file);
    ProcessedIffKnown(file.records);
    assert [file][..0] == [];
  }

  lemma CallWithForeignReturn(n: nat, records: seq<Record>)
    requires n == 6 && records == WaitCall(n) + [FOREIGN_RETURN]
    ensures WaitPlaces(FileObservations(records)) == [(1, 4096)] && PendingOf(records) == None
    ensures WaitReads(map[], records) == []
  {
    WaitCallIsWaiting(n);
    WaitCallIsPending(n);
    ForeignReturnIsTaken(WaitCall(n), WaitArguments(n));
    WaitIsObserved(WaitArguments(n));
    ForeignReturnIsNotStored(WaitCall(n), WaitArguments(n));
  }

  lemma UnreadWait(n: nat) returns (file: TraceFile)
    requires n == 6
    ensures IsWellFormed([file])
    ensures WaitPlaces(TraceObservations([file])) == [(1, 4096)] && WaitReads(map[], AllRecords([file])) == []
  {
    file := TraceFile(2, WaitCall(n) + [FOREIGN_RETURN], false);
    CallWithForeignReturn(n, file.records);
    CallIsNumbered(n, file.records);
    CallIsPaired(n, file.records);
    CallIsSound(n, file.records);
    SingleFile(file);
  }

  /** A wait that another thread's return record closes is counted as successful, but the store adds no read. */
  lemma WaitsMayGoUnread() returns (file: TraceFile)
    ensures IsWellFormed([file])
    ensures WaitPlaces(TraceObservations([file])) == [(1, 4096)] && WaitReads(map[], AllRecords([file])) == []
  {
    file := UnreadWait(6);
  }
}

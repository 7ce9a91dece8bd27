/** What the rows of the trace store stand for, record by record and in the numbers of the file. */
module StoreMeaning {
  import opened Events
  import opened TraceFormat
  import opened TraceValidation
  import opened StoredTrace

  /** The event has the record's numbers, and the kind that its code stands for. */
  predicate Shows(e: TraceEvent, r: Record) {
    && e.thread == r.thread && e.sequence == r.sequence && e.ticket == r.ticket
    && e.address == r.address && e.size == r.size && e.value == r.value && (e.valueKnown <==> r.flags % 2 == 1)
    && match r.kind
       case 1 => e.kind == LOAD
       case 2 => e.kind == STORE
       case 3 => e.kind == ATOMIC_RMW
       case 4 => e.kind == LFENCE
       case 5 => e.kind == SFENCE
       case 6 => e.kind == MFENCE
       case 37 => e.kind == FUTEX_WAIT
       case _ => e.kind == LIFECYCLE(r.kind)
  }

  /** Record i enters a syscall, and up to record n its thread neither enters another nor returns. */
  ghost predicate IsInside(records: seq<Record>, i: nat, n: nat) {
    && i < n <= |records| && records[i].kind == 33
    && forall j :: i < j < n && records[j].thread == records[i].thread ==> records[j].kind !in {33, 35}
  }

  /** Record j holds argument a, given by the thread that record i belongs to. */
  predicate IsPart(records: seq<Record>, i: nat, a: nat, j: nat) {
    && i < j < |records| && records[j].thread == records[i].thread && records[j].kind == 36 && records[j].aux == a
    && a < 6
  }

  /** ... and is the last such record before n. */
  ghost predicate IsArgumentOf(records: seq<Record>, i: nat, n: nat, a: nat, j: nat) {
    j < n && IsPart(records, i, a, j) && forall k: nat :: j < k < n ==> !IsPart(records, i, a, k)
  }

  ghost predicate HasArgument(records: seq<Record>, i: nat, n: nat, a: nat) {
    exists j :: IsArgumentOf(records, i, n, a, j)
  }

  /** The call that the store takes a thread for being inside of is the one entered by record i. */
  ghost predicate IsCallOf(records: seq<Record>, i: nat, n: nat, call: Call) {
    && IsInside(records, i, n) && call.number == records[i].aux
    && (forall a :: a in call.arguments ==> HasArgument(records, i, n, a))
    && (forall a: nat, j: nat :: IsArgumentOf(records, i, n, a, j) ==>
          a in call.arguments && call.arguments[a] == records[j].address)
  }

  lemma OneInside(records: seq<Record>, i: nat, j: nat, n: nat)
    requires IsInside(records, i, n) && IsInside(records, j, n) && records[i].thread == records[j].thread
    ensures i == j
  {
  }

  ghost predicate IsInCall(records: seq<Record>, n: nat, t: nat, call: Call) {
    exists i: nat :: IsCallOf(records, i, n, call) && records[i].thread == t
  }

  /** The first n records leave each thread inside the described call, or inside none. */
  ghost predicate AreCalls(records: seq<Record>, n: nat, calls: Calls) {
    && (forall t :: t in calls ==> IsInCall(records, n, t, calls[t]))
    && (forall i: nat :: IsInside(records, i, n) ==> records[i].thread in calls)
  }

  lemma EntryOpens(records: seq<Record>, n: nat)
    requires n < |records| && records[n].kind == 33
    ensures IsCallOf(records, n, n + 1, Call(records[n].aux, map[]))
  {
  }

  lemma StaysInside(records: seq<Record>, i: nat, n: nat, call: Call)
    requires n < |records| && IsCallOf(records, i, n, call)
    requires records[n].thread == records[i].thread ==> records[n].kind !in {33, 35, 36}
    ensures IsCallOf(records, i, n + 1, call)
  {
    forall a: nat, j: nat ensures IsArgumentOf(records, i, n + 1, a, j) <==> IsArgumentOf(records, i, n, a, j) {
      assert !IsPart(records, i, a, n);
    }
  }

  lemma TakesArgument(records: seq<Record>, i: nat, n: nat, call: Call)
    requires n < |records| && IsCallOf(records, i, n, call)
    requires records[n].thread == records[i].thread && records[n].kind == 36 && records[n].aux < 6
    ensures IsCallOf(records, i, n + 1, call.(arguments := call.arguments[records[n].aux := records[n].address]))
  {
    forall a: nat, j: nat
      ensures IsArgumentOf(records, i, n + 1, a, j)
         <==> if a == records[n].aux then j == n else IsArgumentOf(records, i, n, a, j) {
      assert IsPart(records, i, a, n) <==> a == records[n].aux;
    }
    assert IsArgumentOf(records, i, n + 1, records[n].aux, n);
  }

  lemma IgnoresArgument(records: seq<Record>, i: nat, n: nat, call: Call)
    requires n < |records| && IsCallOf(records, i, n, call)
    requires records[n].thread == records[i].thread && records[n].kind == 36 && records[n].aux >= 6
    ensures IsCallOf(records, i, n + 1, call)
  {
    forall a: nat, j: nat ensures IsArgumentOf(records, i, n + 1, a, j) <==> IsArgumentOf(records, i, n, a, j) {
      assert !IsPart(records, i, a, n);
    }
  }

  /** One thread's call after one more record. */
  lemma CallStep(records: seq<Record>, n: nat, calls: Calls, t: nat)
    requires n < |records| && AreCalls(records, n, calls) && t in NextCalls(calls, records[n])
    ensures IsInCall(records, n + 1, t, NextCalls(calls, records[n])[t])
  {
    var r, next := records[n], NextCalls(calls, records[n]);
    if r.thread == t && r.kind == 33 {
      EntryOpens(records, n);
    } else {
      var i: nat :| IsCallOf(records, i, n, calls[t]) && records[i].thread == t;
      if r.thread == t && r.kind == 36 && r.aux < 6 {
        TakesArgument(records, i, n, calls[t]);
      } else if r.thread == t && r.kind == 36 {
        IgnoresArgument(records, i, n, calls[t]);
      } else {
        StaysInside(records, i, n, calls[t]);
      }
      assert IsCallOf(records, i, n + 1, next[t]);
    }
  }

  lemma CallsStep(records: seq<Record>, n: nat, calls: Calls)
    requires n < |records| && AreCalls(records, n, calls)
    ensures AreCalls(records, n + 1, NextCalls(calls, records[n]))
  {
    var next := NextCalls(calls, records[n]);
    forall t | t in next ensures IsInCall(records, n + 1, t, next[t]) { CallStep(records, n, calls, t); }
    forall i: nat | IsInside(records, i, n + 1) ensures records[i].thread in next {
      if i < n { assert IsInside(records, i, n); }
    }
  }

  /** The calls that the store is inside of after n records. */
  lemma {:induction false} CallsByRecord(records: seq<Record>, n: nat)
    requires n <= |records|
    ensures AreCalls(records, n, CallsAfter(map[], records[..n]))
  {
    if n > 0 {
      CallsByRecord(records, n - 1);
      assert records[..n][..n - 1] == records[..n - 1];
      CallsStep(records, n - 1, CallsAfter(map[], records[..n - 1]));
    }
  }

  // ----- Added reads -----

  /** Wait (0) or wait-bitset (9), with or without the flags 128 and 256. */
  predicate IsWaitCode(operation: nat) {
    operation in {0, 9, 128, 137, 256, 265, 384, 393}
  }

  /** Record n returns with 0 from the futex wait entered by record i, whose six arguments were recorded: first the
      word's address, then the operation. */
  ghost predicate IsWaitReturn(records: seq<Record>, i: nat, n: nat, address: nat) {
    && n < |records| && IsInside(records, i, n) && records[i].aux == 202
    && records[n].thread == records[i].thread && records[n].kind == 35 && records[n].value == 0
    && (forall a: nat :: a < 6 ==> HasArgument(records, i, n, a))
    && (forall j: nat :: IsArgumentOf(records, i, n, 0, j) ==> records[j].address == address)
    && (forall j: nat :: IsArgumentOf(records, i, n, 1, j) ==>
          IsWaitCode(records[j].address))
  }

  lemma WaitOperations(operation: nat)
    ensures IsWaitOperation(operation) <==> IsWaitCode(operation)
  {
    var high := operation / 0x80;
    assert operation == high * 0x80 + operation % 0x80;
    assert high % 4 <= 3;
    if IsWaitOperation(operation) { assert high - high % 4 == 0; }
  }

  lemma ArgumentsAreKnown(records: seq<Record>, i: nat, n: nat, call: Call)
    requires IsCallOf(records, i, n, call) && IsFutexWait(call)
    ensures forall a: nat :: a < 6 ==> HasArgument(records, i, n, a)
    ensures forall j: nat :: IsArgumentOf(records, i, n, 0, j) ==> records[j].address == call.arguments[0]
    ensures forall j: nat :: IsArgumentOf(records, i, n, 1, j) ==> records[j].address == call.arguments[1]
  {
    forall a: nat | a < 6 ensures HasArgument(records, i, n, a) { assert a in call.arguments; }
  }

  lemma WaitIsReturn(records: seq<Record>, i: nat, n: nat, call: Call)
    requires n < |records| && IsCallOf(records, i, n, call) && IsFutexWait(call)
    requires records[n].thread == records[i].thread && records[n].kind == 35 && records[n].value == 0
    ensures IsWaitReturn(records, i, n, call.arguments[0])
  {
    WaitOperations(call.arguments[1]);
    ArgumentsAreKnown(records, i, n, call);
  }

  lemma ArgumentIsKnown(records: seq<Record>, i: nat, n: nat, call: Call, a: nat) returns (j: nat)
    requires IsCallOf(records, i, n, call) && HasArgument(records, i, n, a)
    ensures IsArgumentOf(records, i, n, a, j) && a in call.arguments && call.arguments[a] == records[j].address
  {
    j :| IsArgumentOf(records, i, n, a, j);
  }

  lemma ReturnIsWait(records: seq<Record>, i: nat, n: nat, call: Call, address: nat)
    requires n < |records| && IsCallOf(records, i, n, call) && IsWaitReturn(records, i, n, address)
    ensures IsFutexWait(call) && call.arguments[0] == address
  {
    forall a: nat | a < 6 ensures a in call.arguments {
      assert HasArgument(records, i, n, a);
    }
    var word := ArgumentIsKnown(records, i, n, call, 0);
    var operation := ArgumentIsKnown(records, i, n, call, 1);
    WaitOperations(call.arguments[1]);
  }

  /** The read that stands for a wait: four bytes of the word, in the place of the return, its value unknown. */
  ghost predicate IsReadOfWait(records: seq<Record>, e: TraceEvent) {
    exists i: nat, n: nat :: IsWaitReturn(records, i, n, e.address) && TakesPlaceOf(e, records[n])
  }

  predicate TakesPlaceOf(e: TraceEvent, r: Record) {
    && e.thread == r.thread && e.sequence == r.sequence && e.ticket == r.ticket
    && e.kind == FUTEX_WAIT && e.size == 4 && e.value == 0 && !e.valueKnown
  }

  lemma WaitReadByRecord(records: seq<Record>, n: nat, e: TraceEvent)
    requires n < |records|
    ensures e in WaitRead(CallsAfter(map[], records[..n]), records[n])
       <==> exists i: nat :: IsWaitReturn(records, i, n, e.address) && TakesPlaceOf(e, records[n])
  {
    var calls, r := CallsAfter(map[], records[..n]), records[n];
    CallsByRecord(records, n);
    if e in WaitRead(calls, r) {
      var i: nat :| IsCallOf(records, i, n, calls[r.thread]) && records[i].thread == r.thread;
      WaitIsReturn(records, i, n, calls[r.thread]);
    }
    if i: nat :| IsWaitReturn(records, i, n, e.address) && TakesPlaceOf(e, r) {
      assert records[i].thread in calls;
      var j: nat :| IsCallOf(records, j, n, calls[r.thread]) && records[j].thread == r.thread;
      OneInside(records, i, j, n);
      ReturnIsWait(records, i, n, calls[r.thread], e.address);
    }
  }

  lemma {:induction false} ReadOfReturn(records: seq<Record>, m: nat, n: nat, e: TraceEvent)
    requires n < m <= |records| && e in WaitRead(CallsAfter(map[], records[..n]), records[n])
    ensures e in WaitReads(map[], records[..m])
  {
    assert records[..m][..m - 1] == records[..m - 1];
    if n < m - 1 { ReadOfReturn(records, m - 1, n, e); }
  }

  lemma ReadsByRecord(records: seq<Record>, e: TraceEvent)
    ensures e in WaitReads(map[], records) <==> IsReadOfWait(records, e)
  {
    if e in WaitReads(map[], records) {
      var n := ReturnOfRead(map[], records, e);
      WaitReadByRecord(records, n, e);
    }
    if IsReadOfWait(records, e) {
      var i: nat, n: nat :| IsWaitReturn(records, i, n, e.address) && TakesPlaceOf(e, records[n]);
      WaitReadByRecord(records, n, e);
      assert records[..|records|] == records;
      ReadOfReturn(records, |records|, n, e);
    }
  }

  lemma EventShows(r: Record, e: TraceEvent)
    ensures EventOf(r) == e <==> Shows(e, r)
  {
  }

  /** The stored events are those that show a record, and the reads that stand for successful futex waits. */
  lemma RowsByRecord(records: seq<Record>, e: TraceEvent)
    ensures e in Rows(records) <==> (exists r :: r in records && Shows(e, r)) || IsReadOfWait(records, e)
  {
    RowsAreEventsAndReads(records, e);
    ReadsByRecord(records, e);
    forall r ensures EventOf(r) == e <==> Shows(e, r) { EventShows(r, e); }
    if r :| r in records && Shows(e, r) { assert EventOf(r) == e; }
    if IsRecorded(records, e) {
      var r := RecordOf(records, e);
      assert Shows(e, r);
    }
  }
}

/** The record loop of trace validation: per-thread sequence numbers, syscall frames and field checks. */
module TraceValidation {
  import opened Events
  import opened TraceFormat

  /** A decoded event file; damaged if reading it ended with an I/O or framing error. */
  datatype TraceFile = TraceFile(minor: nat, records: seq<Record>, damaged: bool)

  datatype Reason =
    | OrphanArgument | DuplicateArgument | OrphanReturn | SequenceGap | UnsupportedFlags | OperandOnOtherEvent
    | OperandTooEarly | ZeroWidth | AddressOverflow | DamagedFile | EmptyFile | NoFiles | OpaqueSyscalls
    | Other(code: nat)

  const SYSCALL: nat := 33
  const SYSCALL_EXIT: nat := 35
  const SYSCALL_ARG: nat := 36
  const KNOWN_FLAGS: nat := 64
  const ADDRESS_SPACE: nat := 0x1_0000_0000_0000_0000
  const MAX_REASONS: nat := 100

  // ----- One record -----

  function PreviousOf(done: seq<Record>): map<nat, nat> {
    if done == [] then map[]
    else var r := done[|done| - 1]; PreviousOf(done[..|done| - 1])[r.thread := r.sequence]
  }

  function SequenceProblems(previous: map<nat, nat>, r: Record): seq<Reason> {
    var expected := if r.thread in previous then previous[r.thread] + 1 else 1;
    if r.sequence == expected then [] else [SequenceGap]
  }

  /** The syscall that a file is inside of, with the arguments seen so far. */
  datatype Pending = Pending(thread: nat, ticket: nat, number: nat, arguments: map<nat, nat>)

  datatype Observation = Observation(thread: nat, ticket: nat, number: nat, arguments: seq<nat>, result: Option<nat>)

  predicate TakesArgument(pending: Option<Pending>, r: Record) {
    r.kind == SYSCALL_ARG && pending.Some? && pending.value.number == r.value && r.aux < 6
  }

  predicate TakesReturn(pending: Option<Pending>, r: Record) {
    r.kind == SYSCALL_EXIT && pending.Some? && pending.value.number == r.aux
  }

  function NextPending(pending: Option<Pending>, r: Record): Option<Pending> {
    if r.kind == SYSCALL then Some(Pending(r.thread, r.ticket, r.aux, map[]))
    else if TakesArgument(pending, r) then
      Some(pending.value.(arguments := pending.value.arguments[r.aux := r.address]))
    else if TakesReturn(pending, r) then None
    else pending
  }

  function PendingOf(records: seq<Record>): Option<Pending> {
    if records == [] then None else NextPending(PendingOf(records[..|records| - 1]), records[|records| - 1])
  }

  function SyscallProblems(pending: Option<Pending>, r: Record): seq<Reason> {
    if r.kind == SYSCALL_ARG then
      if !TakesArgument(pending, r) then [OrphanArgument]
      else if r.aux in pending.value.arguments then [DuplicateArgument] else []
    else if r.kind == SYSCALL_EXIT && !TakesReturn(pending, r) then [OrphanReturn]
    else []
  }

  /** Arguments in the order of their index. */
  function InOrder(arguments: map<nat, nat>, n: nat): seq<nat> {
    if n == 0 then [] else InOrder(arguments, n - 1) + if n - 1 in arguments then [arguments[n - 1]] else []
  }

  function Finished(pending: Option<Pending>, result: Option<nat>): seq<Observation> {
    match pending
    case None => []
    case Some(p) => [Observation(p.thread, p.ticket, p.number, InOrder(p.arguments, 6), result)]
  }

  function Emitted(pending: Option<Pending>, r: Record): seq<Observation> {
    if r.kind == SYSCALL then Finished(pending, None)
    else if TakesReturn(pending, r) then Finished(pending, Some(r.value))
    else []
  }

  function FlagProblems(minor: nat, r: Record): seq<Reason> {
    (if r.flags >= KNOWN_FLAGS then [UnsupportedFlags] else [])
    + (if !HasOperandFlag(r.flags) then []
       else if !IsMemoryKind(r.kind) then [OperandOnOtherEvent]
       else if minor < 2 then [OperandTooEarly] else [])
  }

  function RangeProblems(r: Record): seq<Reason> {
    (if IsMemoryKind(r.kind) && r.size == 0 then [ZeroWidth] else [])
    + (if IsMemoryKind(r.kind) && r.address + r.size > ADDRESS_SPACE then [AddressOverflow] else [])
  }

  // ----- Files -----

  /** The records before the first one of an unknown kind. */
  function Processed(records: seq<Record>): (p: seq<Record>)
    ensures |p| <= |records| && p == records[..|p|]
    ensures forall r :: r in p ==> IsKnownKind(r.kind)
    ensures |p| < |records| ==> !IsKnownKind(records[|p|].kind)
  {
    if records == [] || !IsKnownKind(records[0].kind) then [] else [records[0]] + Processed(records[1..])
  }

  predicate IsBroken(file: TraceFile) {
    file.damaged || Processed(file.records) != file.records
  }

  function Flat(files: seq<TraceFile>): seq<Record> {
    if files == [] then [] else Flat(files[..|files| - 1]) + Processed(files[|files| - 1].records)
  }

  /** All problems of a record, given the records before it in all files and in its own. */
  function RecordProblems(minor: nat, done: seq<Record>, inFile: seq<Record>, r: Record): seq<Reason> {
    SyscallProblems(PendingOf(inFile), r) + SequenceProblems(PreviousOf(done), r) + FlagProblems(minor,
      r) + RangeProblems(r)
  }

  function FileProblems(minor: nat, before: seq<Record>, records: seq<Record>): seq<Reason> {
    if records == [] then []
    else
      var n := |records| - 1;
      FileProblems(minor, before, records[..n]) + RecordProblems(minor, before + records[..n], records[..n], records[n])
  }

  function EndOfFile(file: TraceFile): seq<Reason> {
    if IsBroken(file) then [DamagedFile] else if file.records == [] then [EmptyFile] else []
  }

  function TraceProblems(files: seq<TraceFile>): seq<Reason> {
    if files == [] then []
    else
      var n := |files| - 1;
      TraceProblems(files[..n])
      + FileProblems(files[n].minor, Flat(files[..n]), Processed(files[n].records))
      + EndOfFile(files[n])
  }

  function FileObservations(records: seq<Record>): seq<Observation> {
    if records == [] then []
    else
      var n := |records| - 1;
      FileObservations(records[..n]) + Emitted(PendingOf(records[..n]), records[n])
  }

  function TraceObservations(files: seq<TraceFile>): seq<Observation> {
    if files == [] then []
    else
      var last := Processed(files[|files| - 1].records);
      TraceObservations(files[..|files| - 1]) + FileObservations(last) + Finished(PendingOf(last), None)
  }

  // ----- The loop -----

  function Threads(records: seq<Record>): set<nat> {
    set r | r in records :: r.thread
  }

  predicate HasKind(records: seq<Record>, kind: nat) {
    exists r :: r in records && r.kind == kind
  }

  /** What the checker has gathered. */
  datatype Scan = Scan(problems: seq<Reason>, previous: map<nat, nat>, pending: Option<Pending>,
    observations: seq<Observation>,
                             threads: set<nat>, syscalls: bool, metadata: bool)

  /** One record was looked at, after `done` in all files and `inFile` in its own. */
  ghost predicate Records(s: Scan, t: Scan, minor: nat, done: seq<Record>, inFile: seq<Record>, r: Record) {
    && t.problems == s.problems + RecordProblems(minor, done, inFile, r)
    && t.previous == PreviousOf(done + [r]) && t.pending == PendingOf(inFile + [r])
    && t.observations == s.observations + Emitted(PendingOf(inFile), r)
    && t.threads == s.threads + {r.thread}
    && t.syscalls == (s.syscalls || r.kind == SYSCALL)
    && t.metadata == (s.metadata || r.kind == SYSCALL_ARG || r.kind == SYSCALL_EXIT)
  }

  datatype Part = Problems | Previous | Frame | Observed | ThreadIds | Syscalls | Metadata

  ghost predicate PartScans(part: Part, s: Scan, t: Scan, minor: nat, before: seq<Record>, p: seq<Record>) {
    match part
    case Problems => t.problems == s.problems + FileProblems(minor, before, p)
    case Previous => t.previous == PreviousOf(before + p)
    case Frame => t.pending == PendingOf(p)
    case Observed => t.observations == s.observations + FileObservations(p)
    case ThreadIds => t.threads == s.threads + Threads(p)
    case Syscalls => t.syscalls == (s.syscalls || HasKind(p, SYSCALL))
    case Metadata => t.metadata == (s.metadata || HasMetadata(p))
  }

  /** The records p of one file were looked at, after those in `before`. */
  ghost predicate Scans(s: Scan, t: Scan, minor: nat, before: seq<Record>, p: seq<Record>) {
    forall part :: PartScans(part, s, t, minor, before, p)
  }

  lemma OpenScans(s: Scan, t: Scan, minor: nat, before: seq<Record>, p: seq<Record>)
    requires Scans(s, t, minor, before, p)
    ensures t.problems == s.problems + FileProblems(minor, before, p)
    ensures t.previous == PreviousOf(before + p) && t.pending == PendingOf(p)
    ensures t.observations == s.observations + FileObservations(p)
    ensures t.threads == s.threads + Threads(p)
    ensures t.syscalls == (s.syscalls || HasKind(p, SYSCALL)) && t.metadata == (s.metadata || HasMetadata(p))
  {
    assert PartScans(Problems, s, t, minor, before, p) && PartScans(Previous, s, t, minor, before, p);
    assert PartScans(Frame, s, t, minor, before, p) && PartScans(Observed, s, t, minor, before, p);
    assert PartScans(ThreadIds, s, t, minor, before, p) && PartScans(Syscalls, s, t, minor, before, p);
    assert PartScans(Metadata, s, t, minor, before, p);
  }

  predicate HasMetadata(records: seq<Record>) {
    HasKind(records, SYSCALL_ARG) || HasKind(records, SYSCALL_EXIT)
  }

  lemma KindsOfNext(p: seq<Record>, r: Record, kind: nat)
    ensures HasKind(p + [r], kind) <==> HasKind(p, kind) || r.kind == kind
  {
    if r.kind == kind { assert r in p + [r]; }
    if x :| x in p && x.kind == kind { assert x in p + [r]; }
  }

  lemma ThreadsOfNext(p: seq<Record>, r: Record)
    ensures Threads(p + [r]) == Threads(p) + {r.thread}
  {
    assert r in p + [r];
  }

  lemma ProblemsOfNext(minor: nat, before: seq<Record>, p: seq<Record>, r: Record, start: seq<Reason>)
    ensures start + FileProblems(minor, before, p + [r]) == start + FileProblems(minor, before,
      p) + RecordProblems(minor, before + p, p, r)
  {
    assert (p + [r])[..|p|] == p;
    Associative(start, FileProblems(minor, before, p), RecordProblems(minor, before + p, p, r));
  }

  lemma ObservationsOfNext(p: seq<Record>, r: Record, start: seq<Observation>)
    ensures start + FileObservations(p + [r]) == start + FileObservations(p) + Emitted(PendingOf(p), r)
  {
    assert (p + [r])[..|p|] == p;
    Associative(start, FileObservations(p), Emitted(PendingOf(p), r));
  }

  lemma RecordIsDone(s: Scan, t: Scan, minor: nat, done: seq<Record>, inFile: seq<Record>, r: Record)
    requires s.previous == PreviousOf(done) && s.pending == PendingOf(inFile)
    requires t.problems == s.problems + SyscallProblems(s.pending, r) + SequenceProblems(s.previous,
      r) + FlagProblems(minor, r) + RangeProblems(r)
    requires t.previous == s.previous[r.thread := r.sequence] && t.pending == NextPending(s.pending, r)
    requires t.observations == s.observations + Emitted(s.pending, r) && t.threads == s.threads + {r.thread}
    requires t.syscalls == (s.syscalls || r.kind == SYSCALL)
    requires t.metadata == (s.metadata || r.kind == SYSCALL_ARG || r.kind == SYSCALL_EXIT)
    ensures Records(s, t, minor, done, inFile, r)
  {
    Join(s.problems, SyscallProblems(s.pending, r), SequenceProblems(s.previous, r), FlagProblems(minor, r),
      RangeProblems(r));
    assert (done + [r])[..|done|] == done && (inFile + [r])[..|inFile|] == inFile;
  }

  lemma ScanNext(s: Scan, t: Scan, u: Scan, minor: nat, before: seq<Record>, p: seq<Record>, r: Record)
    requires Scans(s, t, minor, before, p) && Records(t, u, minor, before + p, p, r)
    ensures Scans(s, u, minor, before, p + [r])
  {
    OpenScans(s, t, minor, before, p);
    ProblemsOfNext(minor, before, p, r, s.problems);
    ObservationsOfNext(p, r, s.observations);
    ThreadsOfNext(p, r);
    KindsOfNext(p, r, SYSCALL);
    KindsOfNext(p, r, SYSCALL_ARG);
    KindsOfNext(p, r, SYSCALL_EXIT);
    Associative(before, p, [r]);
  }

  class Validator {
    var reasons: seq<Reason>
    var omitted: nat
    ghost var problems: seq<Reason>
    var threads: set<nat>
    var syscallCount: nat
    var sawMetadata: bool
    var observations: seq<Observation>
    var previous: map<nat, nat>
    var pending: Option<Pending>

    /** Only the first reasons are kept; the others are counted. */
    ghost predicate Valid()
      reads this
    {
      && reasons == (if |problems| <= MAX_REASONS then problems else problems[..MAX_REASONS])
      && omitted == |problems| - |reasons|
    }

    ghost function Scanned(): Scan
      reads this
    {
      Scan(problems, previous, pending, observations, threads, syscallCount > 0, sawMetadata)
    }

    constructor ()
      ensures Valid() && problems == [] && observations == [] && previous == map[] && pending == None
      ensures threads == {} && syscallCount == 0 && !sawMetadata
    {
      reasons, omitted, problems, threads := [], 0, [], {};
      syscallCount, sawMetadata, observations, previous, pending := 0, false, [], map[], None;
    }

    method AddReason(reason: Reason)
      requires Valid()
      modifies `reasons, `omitted, `problems
      ensures Valid() && problems == old(problems) + [reason]
    {
      if |reasons| < MAX_REASONS {
        reasons := reasons + [reason];
      } else {
        omitted := omitted + 1;
      }
      problems := problems + [reason];
    }

    method AddReasons(more: seq<Reason>)
      requires Valid()
      modifies `reasons, `omitted, `problems
      ensures Valid() && problems == old(problems) + more
    {
      for i := 0 to |more|
        invariant Valid() && problems == old(problems) + more[..i]
      {
        AddReason(more[i]);
        assert more[..i + 1] == more[..i] + [more[i]];
      }
      assert more[..|more|] == more;
    }

    method FinishPending(result: Option<nat>)
      modifies `pending, `observations
      ensures pending == None && observations == old(observations) + Finished(old(pending), result)
    {
      if pending.Some? {
        var p := pending.value;
        observations := observations + [Observation(p.thread, p.ticket, p.number, InOrder(p.arguments, 6), result)];
      }
      pending := None;
    }

    /** The syscall part of one record. */
    method CheckSyscall(r: Record)
      requires Valid()
      modifies `pending, `observations, `reasons, `omitted, `problems, `syscallCount, `sawMetadata
      ensures Valid() && problems == old(problems) + SyscallProblems(old(pending), r)
      ensures pending == NextPending(old(pending), r) && observations == old(observations) + Emitted(old(pending), r)
      ensures syscallCount == old(syscallCount) + if r.kind == SYSCALL then 1 else 0
      ensures sawMetadata == (old(sawMetadata) || r.kind == SYSCALL_ARG || r.kind == SYSCALL_EXIT)
    {
      if r.kind == SYSCALL {
        syscallCount := syscallCount + 1;
        FinishPending(None);
        pending := Some(Pending(r.thread, r.ticket, r.aux, map[]));
      } else if r.kind == SYSCALL_ARG {
        sawMetadata := true;
        if pending.None? || pending.value.number != r.value || r.aux >= 6 {
          AddReason(OrphanArgument);
        } else {
          if r.aux in pending.value.arguments {
            AddReason(DuplicateArgument);
          }
          pending := Some(pending.value.(arguments := pending.value.arguments[r.aux := r.address]));
        }
      } else if r.kind == SYSCALL_EXIT {
        sawMetadata := true;
        if pending.None? || pending.value.number != r.aux {
          AddReason(OrphanReturn);
        } else {
          FinishPending(Some(r.value));
        }
      }
    }

    method CheckSequence(r: Record)
      requires Valid()
      modifies `previous, `reasons, `omitted, `problems
      ensures Valid() && previous == old(previous)[r.thread := r.sequence]
      ensures problems == old(problems) + SequenceProblems(old(previous), r)
    {
      var expected := if r.thread in previous then previous[r.thread] + 1 else 1;
      if r.sequence != expected {
        AddReason(SequenceGap);
      }
      previous := previous[r.thread := r.sequence];
    }

    method CheckFlags(minor: nat, r: Record)
      requires Valid()
      modifies `reasons, `omitted, `problems
      ensures Valid() && problems == old(problems) + FlagProblems(minor, r)
    {
      if r.flags >= KNOWN_FLAGS {
        AddReason(UnsupportedFlags);
      }
      if HasOperandFlag(r.flags) {
        if !IsMemoryKind(r.kind) {
          AddReason(OperandOnOtherEvent);
        } else if minor < 2 {
          AddReason(OperandTooEarly);
        }
      }
    }

    method CheckRange(r: Record)
      requires Valid()
      modifies `reasons, `omitted, `problems
      ensures Valid() && problems == old(problems) + RangeProblems(r)
    {
      if IsMemoryKind(r.kind) && r.size == 0 {
        AddReason(ZeroWidth);
      }
      if IsMemoryKind(r.kind) && r.address + r.size > ADDRESS_SPACE {
        AddReason(AddressOverflow);
      }
    }

    /** One record of a known kind. */
    method CheckRecord(minor: nat, r: Record, ghost done: seq<Record>, ghost inFile: seq<Record>)
      requires Valid() && previous == PreviousOf(done) && pending == PendingOf(inFile)
      modifies this
      ensures Valid() && Records(old(Scanned()), Scanned(), minor, done, inFile, r)
    {
      ghost var start := Scanned();
      threads := threads + {r.thread};
      CheckSyscall(r);
      CheckSequence(r);
      CheckFlags(minor, r);
      CheckRange(r);
      RecordIsDone(start, Scanned(), minor, done, inFile, r);
    }

    method CheckNext(minor: nat, r: Record, ghost start: Scan, ghost before: seq<Record>, ghost p: seq<Record>)
      requires Valid() && Scans(start, Scanned(), minor, before, p)
      modifies this
      ensures Valid() && Scans(start, Scanned(), minor, before, p + [r])
    {
      ghost var now := Scanned();
      OpenScans(start, now, minor, before, p);
      CheckRecord(minor, r, before + p, p);
      ScanNext(start, now, Scanned(), minor, before, p, r);
    }

    /** The records of one file; stops at the first of an unknown kind, of which only the thread is noted. */
    method CheckRecords(file: TraceFile, ghost before: seq<Record>) returns (stopped: bool, ghost checked: Scan)
      requires Valid() && previous == PreviousOf(before) && pending == None
      modifies this
      ensures Valid() && stopped == (Processed(file.records) != file.records)
      ensures Scans(old(Scanned()), checked, file.minor, before, Processed(file.records))
      ensures Scanned() == checked.(threads := Scanned().threads) && (!stopped ==> Scanned() == checked)
    {
      ghost var start, p, q := Scanned(), Processed(file.records), [];
      ScanNothing(start, file.minor, before);
      var i := 0;
      while i < |file.records| && IsKnownKind(file.records[i].kind)
        invariant i <= |p| && q == p[..i]
        invariant Valid() && Scans(start, Scanned(), file.minor, before, q)
      {
        CheckNext(file.minor, file.records[i], start, before, q);
        q := q + [file.records[i]];
        i := i + 1;
      }
      assert q == p;
      checked, stopped := Scanned(), i < |file.records|;
      if stopped {
        threads := threads + {file.records[i].thread};
      }
    }

    method CheckEnd(file: TraceFile, stopped: bool)
      requires Valid() && stopped == (Processed(file.records) != file.records)
      modifies `reasons, `omitted, `problems
      ensures Valid() && problems == old(problems) + EndOfFile(file)
    {
      if stopped || file.damaged {
        AddReason(DamagedFile);
      } else if |file.records| == 0 {
        AddReason(EmptyFile);
      }
    }

    method CheckFile(file: TraceFile, ghost before: seq<Record>)
      requires Valid() && previous == PreviousOf(before) && pending == None
      modifies this
      ensures Valid() && FileIsChecked(old(Scanned()), Scanned(), file, before)
    {
      ghost var start := Scanned();
      var stopped, checked := CheckRecords(file, before);
      CheckEnd(file, stopped);
      FinishPending(None);
      CloseFile(start, checked, Scanned(), file, before);
    }

    method CheckNextFile(file: TraceFile, ghost start: seq<Reason>, ghost files: seq<TraceFile>)
      requires Valid() && TraceIsChecked(Scanned(), start, files)
      modifies this
      ensures Valid() && TraceIsChecked(Scanned(), start, files + [file])
    {
      ghost var now := Scanned();
      OpenTrace(now, start, files);
      CheckFile(file, Flat(files));
      NextFile(now, Scanned(), start, files, file);
    }

    method CheckFiles(files: seq<TraceFile>)
      requires Valid() && TraceIsChecked(Scanned(), problems, [])
      modifies this
      ensures Valid() && TraceIsChecked(Scanned(), old(problems), files)
    {
      ghost var start, done := problems, [];
      for i := 0 to |files|
        invariant done == files[..i] && Valid() && TraceIsChecked(Scanned(), start, done)
      {
        CheckNextFile(files[i], start, done);
        done := done + [files[i]];
      }
      assert done == files;
    }
  }

  /** A file was looked at; only the threads of a broken one are left open. */
  ghost predicate FileIsChecked(s: Scan, t: Scan, file: TraceFile, before: seq<Record>) {
    var p := Processed(file.records);
    && t.problems == s.problems + FileProblems(file.minor, before, p) + EndOfFile(file)
    && t.previous == PreviousOf(before + p) && t.pending == None
    && t.observations == s.observations + FileObservations(p) + Finished(PendingOf(p), None)
    && (!IsBroken(file) ==> t.threads == s.threads + Threads(p))
    && t.syscalls == (s.syscalls || HasKind(p, SYSCALL))
    && t.metadata == (s.metadata || HasMetadata(p))
  }

  lemma CloseFile(s: Scan, t: Scan, u: Scan, file: TraceFile, before: seq<Record>)
    requires Scans(s, t, file.minor, before, Processed(file.records))
    requires u.problems == t.problems + EndOfFile(file) && u.previous == t.previous && u.pending == None
    requires u.observations == t.observations + Finished(t.pending, None)
    requires (!IsBroken(file) ==> u.threads == t.threads) && u.syscalls == t.syscalls && u.metadata == t.metadata
    ensures FileIsChecked(s, u, file, before)
  {
    OpenScans(s, t, file.minor, before, Processed(file.records));
  }

  lemma ScanNothing(s: Scan, minor: nat, before: seq<Record>)
    requires s.previous == PreviousOf(before) && s.pending == None
    ensures Scans(s, s, minor, before, [])
  {
    assert before + [] == before;
  }

  lemma Join<T>(a: seq<T>, b: seq<T>, c: seq<T>, d: seq<T>, e: seq<T>)
    ensures a + b + c + d + e == a + (b + c + d + e)
  {
  }

  // ----- The whole trace -----

  ghost predicate PartIsChecked(part: Part, t: Scan, manifest: seq<Reason>, files: seq<TraceFile>) {
    match part
    case Problems => t.problems == manifest + TraceProblems(files)
    case Previous => t.previous == PreviousOf(Flat(files))
    case Frame => t.pending == None
    case Observed => t.observations == TraceObservations(files)
    case ThreadIds => t.problems == [] ==> t.threads == Threads(Flat(files))
    case Syscalls => t.syscalls == HasKind(Flat(files), SYSCALL)
    case Metadata => t.metadata == HasMetadata(Flat(files))
  }

  /** All these files were looked at. */
  ghost predicate TraceIsChecked(t: Scan, manifest: seq<Reason>, files: seq<TraceFile>) {
    forall part :: PartIsChecked(part, t, manifest, files)
  }

  lemma OpenTrace(t: Scan, manifest: seq<Reason>, files: seq<TraceFile>)
    requires TraceIsChecked(t, manifest, files)
    ensures t.problems == manifest + TraceProblems(files)
    ensures t.previous == PreviousOf(Flat(files)) && t.pending == None
    ensures t.observations == TraceObservations(files)
    ensures t.problems == [] ==> t.threads == Threads(Flat(files))
    ensures t.syscalls == HasKind(Flat(files), SYSCALL) && t.metadata == HasMetadata(Flat(files))
  {
    assert PartIsChecked(Problems, t, manifest, files) && PartIsChecked(Previous, t, manifest, files);
    assert PartIsChecked(Frame, t, manifest, files) && PartIsChecked(Observed, t, manifest, files);
    assert PartIsChecked(ThreadIds, t, manifest, files) && PartIsChecked(Syscalls, t, manifest, files);
    assert PartIsChecked(Metadata, t, manifest, files);
  }

  lemma KindsOfBoth(a: seq<Record>, b: seq<Record>, kind: nat)
    ensures HasKind(a + b, kind) <==> HasKind(a, kind) || HasKind(b, kind)
  {
    if x :| x in a && x.kind == kind { assert x in a + b; }
    if x :| x in b && x.kind == kind { assert x in a + b; }
  }

  lemma ThreadsOfBoth(a: seq<Record>, b: seq<Record>)
    ensures Threads(a + b) == Threads(a) + Threads(b)
  {
    forall x ensures x in Threads(a + b) <==> x in Threads(a) || x in Threads(b) {
      if r :| r in a && r.thread == x { assert r in a + b; }
      if r :| r in b && r.thread == x { assert r in a + b; }
    }
  }

  lemma FilesSplit(files: seq<TraceFile>, file: TraceFile, manifest: seq<Reason>)
    ensures Flat(files + [file]) == Flat(files) + Processed(file.records)
    ensures manifest + TraceProblems(files + [file])
         == manifest + TraceProblems(files) + FileProblems(file.minor, Flat(files),
           Processed(file.records)) + EndOfFile(file)
  {
    assert (files + [file])[..|files|] == files;
    var own := FileProblems(file.minor, Flat(files), Processed(file.records));
    Associative(manifest, TraceProblems(files), own);
    Associative(manifest, TraceProblems(files) + own, EndOfFile(file));
  }

  lemma ObservationsSplit(files: seq<TraceFile>, file: TraceFile)
    ensures TraceObservations(files + [file])
         == TraceObservations(files)
            + (FileObservations(Processed(file.records)) + Finished(PendingOf(Processed(file.records)), None))
  {
    var p := Processed(file.records);
    assert (files + [file])[..|files|] == files;
    Associative(TraceObservations(files), FileObservations(p), Finished(PendingOf(p), None));
  }

  lemma KindsOfFile(before: seq<Record>, p: seq<Record>)
    ensures HasKind(before + p, SYSCALL) == (HasKind(before, SYSCALL) || HasKind(p, SYSCALL))
    ensures HasMetadata(before + p) == (HasMetadata(before) || HasMetadata(p))
  {
    KindsOfBoth(before, p, SYSCALL);
    KindsOfBoth(before, p, SYSCALL_ARG);
    KindsOfBoth(before, p, SYSCALL_EXIT);
  }

  lemma NextFile(s: Scan, t: Scan, manifest: seq<Reason>, files: seq<TraceFile>, file: TraceFile)
    requires TraceIsChecked(s, manifest, files) && FileIsChecked(s, t, file, Flat(files))
    ensures TraceIsChecked(t, manifest, files + [file])
  {
    var p, before, more := Processed(file.records), Flat(files), files + [file];
    OpenTrace(s, manifest, files);
    FilesSplit(files, file, manifest);
    ObservationsSplit(files, file);
    KindsOfFile(before, p);
    ThreadsOfBoth(before, p);
    Associative(TraceObservations(files), FileObservations(p), Finished(PendingOf(p), None));
    if t.problems == [] { assert s.problems == [] && !IsBroken(file); }
    forall part ensures PartIsChecked(part, t, manifest, more) {}
  }

  lemma NoFileYet(s: Scan)
    requires s.previous == map[] && s.pending == None && s.observations == [] && s.threads == {} && !s.syscalls
      && !s.metadata
    ensures TraceIsChecked(s, s.problems, [])
  {
    assert s.problems + [] == s.problems;
  }

  /** The record loop and the verdict. The manifest's own problems and the unsupported syscall effects are inputs. */
  method Validate(manifest: seq<Reason>, files: seq<TraceFile>, effects: seq<Reason>)
    returns (valid: bool, complete: bool, reasons: seq<Reason>, observations: seq<Observation>)
    ensures complete <==> manifest == [] && IsWellFormed(files)
    ensures valid <==> complete && !(IsOpaque(files) || (HasSharedSyscalls(files) && effects != []))
    ensures observations == TraceObservations(files) && (valid <==> reasons == []) && |reasons| <= 100
  {
    var v := new Validator();
    v.AddReasons(manifest);
    if files == [] {
      v.AddReason(NoFiles);
    }
    ghost var start := v.problems;
    assert start == manifest + if files == [] then [NoFiles] else [];
    NoFileYet(v.Scanned());
    v.CheckFiles(files);
    complete, observations := v.reasons == [], v.observations;
    SoundTrace(v.Scanned(), manifest, files);
    if |v.threads| > 1 && v.syscallCount > 0 {
      if !v.sawMetadata {
        v.AddReason(OpaqueSyscalls);
      } else {
        v.AddReasons(effects);
      }
    }
    valid, reasons := v.reasons == [], v.reasons;
  }

  /** What the gathered problems and facts say about the trace. */
  lemma SoundTrace(t: Scan, manifest: seq<Reason>, files: seq<TraceFile>)
    requires TraceIsChecked(t, manifest + if files == [] then [NoFiles] else [], files)
    ensures t.problems == [] <==> manifest == [] && IsWellFormed(files)
    ensures t.problems == [] ==> t.threads == Threads(Flat(files))
    ensures t.syscalls == HasKind(Flat(files), SYSCALL) && t.metadata == HasMetadata(Flat(files))
    ensures t.observations == TraceObservations(files)
  {
    OpenTrace(t, manifest + if files == [] then [NoFiles] else [], files);
    NoProblemsIffWellFormed(files);
    NoneOfBoth(manifest + if files == [] then [NoFiles] else [], TraceProblems(files));
    NoneOfBoth(manifest, if files == [] then [NoFiles] else []);
  }

  /** Several threads make syscalls of which nothing but the entry was recorded. */
  ghost predicate IsOpaque(files: seq<TraceFile>) {
    |Threads(Flat(files))| > 1 && HasKind(Flat(files), SYSCALL) && !HasMetadata(Flat(files))
  }

  ghost predicate HasSharedSyscalls(files: seq<TraceFile>) {
    |Threads(Flat(files))| > 1 && HasKind(Flat(files), SYSCALL) && HasMetadata(Flat(files))
  }

  // ----- What a trace without problems looks like -----

  function CountOf(records: seq<Record>, thread: nat): nat {
    if records == [] then 0
    else CountOf(records[..|records| - 1], thread) + if records[|records| - 1].thread == thread then 1 else 0
  }

  /** Each thread's records are numbered 1, 2, 3, ... through all files. */
  ghost predicate AreNumbered(all: seq<Record>) {
    forall i :: 0 <= i < |all| ==> all[i].sequence == CountOf(all[..i], all[i].thread) + 1
  }

  /** The call at e is still open before record i. */
  ghost predicate IsOpen(records: seq<Record>, e: nat, i: nat) {
    && e < i <= |records| && records[e].kind == SYSCALL
    && forall j :: e < j < i ==> records[j].kind != SYSCALL && records[j].kind != SYSCALL_EXIT
  }

  ghost predicate IsArgument(records: seq<Record>, e: nat, i: nat, a: nat, j: nat) {
    e < j < i <= |records| && records[j].kind == SYSCALL_ARG && records[j].aux == a
  }

  /** The record fits the open call: the call's number, an index below six, no index twice. */
  ghost predicate FitsCall(records: seq<Record>, e: nat, i: nat) {
    && i < |records| && IsOpen(records, e, i)
    && (records[i].kind == SYSCALL_ARG ==> records[e].aux == records[i].value && records[i].aux < 6
                                           && forall j :: !IsArgument(records, e, i, records[i].aux, j))
    && (records[i].kind == SYSCALL_EXIT ==> records[e].aux == records[i].aux)
  }

  /** Every argument and every return belongs to an open call of the same number. */
  ghost predicate ArePaired(records: seq<Record>) {
    forall i :: 0 <= i < |records| && (records[i].kind == SYSCALL_ARG || records[i].kind == SYSCALL_EXIT) ==>
      exists e :: FitsCall(records, e, i)
  }

  ghost predicate FieldsAreSound(minor: nat, r: Record) {
    && r.flags < KNOWN_FLAGS
    && (HasOperandFlag(r.flags) ==> IsMemoryKind(r.kind) && minor >= 2)
    && (IsMemoryKind(r.kind) ==> 0 < r.size <= ADDRESS_SPACE - r.address)
  }

  ghost predicate IsSoundFile(file: TraceFile) {
    && !file.damaged && file.records != [] && ArePaired(file.records)
    && forall r :: r in file.records ==> IsKnownKind(r.kind) && FieldsAreSound(file.minor, r)
  }

  function AllRecords(files: seq<TraceFile>): seq<Record> {
    if files == [] then [] else AllRecords(files[..|files| - 1]) + files[|files| - 1].records
  }

  ghost predicate IsWellFormed(files: seq<TraceFile>) {
    files != [] && (forall f :: f in files ==> IsSoundFile(f)) && AreNumbered(AllRecords(files))
  }

  // ----- Sequence numbers -----

  ghost predicate HasNoGap(all: seq<Record>, i: nat)
    requires i < |all|
  {
    SequenceProblems(PreviousOf(all[..i]), all[i]) == []
  }

  ghost predicate HaveNoGaps(all: seq<Record>) {
    forall i :: 0 <= i < |all| ==> HasNoGap(all, i)
  }

  ghost predicate CountsThreads(previous: map<nat, nat>, all: seq<Record>) {
    forall t :: (t in previous <==> CountOf(all, t) > 0) && (t in previous ==> previous[t] == CountOf(all, t))
  }

  ghost predicate IsNumbered(all: seq<Record>, i: nat)
    requires i < |all|
  {
    all[i].sequence == CountOf(all[..i], all[i].thread) + 1
  }

  lemma NumberedStep(all: seq<Record>, i: nat)
    requires i < |all| && CountsThreads(PreviousOf(all[..i]), all[..i])
    ensures HasNoGap(all, i) <==> IsNumbered(all, i)
    ensures IsNumbered(all, i) ==> CountsThreads(PreviousOf(all[..i + 1]), all[..i + 1])
  {
    assert all[..i + 1][..i] == all[..i];
  }

  lemma {:induction false} NumberedUpTo(all: seq<Record>, n: nat)
    requires n <= |all|
    ensures (forall i :: 0 <= i < n ==> HasNoGap(all, i)) <==> forall i :: 0 <= i < n ==> IsNumbered(all, i)
    ensures (forall i :: 0 <= i < n ==> IsNumbered(all, i)) ==> CountsThreads(PreviousOf(all[..n]), all[..n])
  {
    if n > 0 {
      NumberedUpTo(all, n - 1);
      if forall i :: 0 <= i < n - 1 ==> IsNumbered(all, i) { NumberedStep(all, n - 1); }
    }
  }

  lemma NumberedIffNoGaps(all: seq<Record>)
    ensures AreNumbered(all) <==> HaveNoGaps(all)
  {
    NumberedUpTo(all, |all|);
    assert AreNumbered(all) <==> forall i :: 0 <= i < |all| ==> IsNumbered(all, i) by {
      if AreNumbered(all) {
        forall i | 0 <= i < |all| ensures IsNumbered(all, i) {}
      }
      if forall i :: 0 <= i < |all| ==> IsNumbered(all, i) {
        forall i | 0 <= i < |all| ensures all[i].sequence == CountOf(all[..i],
          all[i].thread) + 1 { assert IsNumbered(all, i); }
      }
    }
  }

  ghost predicate ContinuesAt(before: seq<Record>, p: seq<Record>, i: nat)
    requires i < |p|
  {
    SequenceProblems(PreviousOf(before + p[..i]), p[i]) == []
  }

  lemma NoGapsOfBoth(before: seq<Record>, p: seq<Record>)
    ensures HaveNoGaps(before + p) <==> HaveNoGaps(before) && forall i :: 0 <= i < |p| ==> ContinuesAt(before, p, i)
  {
    var all := before + p;
    forall i | 0 <= i < |before| ensures HasNoGap(all, i) == HasNoGap(before, i) { assert all[..i] == before[..i]; }
    forall i | 0 <= i < |p| ensures HasNoGap(all, |before| + i) == ContinuesAt(before, p, i) {
      assert all[..|before| + i] == before + p[..i];
    }
    if HaveNoGaps(before) && forall i :: 0 <= i < |p| ==> ContinuesAt(before, p, i) {
      forall i | 0 <= i < |all| ensures HasNoGap(all, i) {
        if i >= |before| {
          var k := i - |before|;
          assert ContinuesAt(before, p, k) && HasNoGap(all, |before| + k) == ContinuesAt(before, p, k);
        }
      }
    }
  }

  // ----- Syscall frames -----

  ghost predicate FitsFrame(records: seq<Record>, i: nat)
    requires i < |records|
  {
    SyscallProblems(PendingOf(records[..i]), records[i]) == []
  }

  ghost predicate IsPaired(records: seq<Record>, i: nat)
    requires i < |records|
  {
    records[i].kind == SYSCALL_ARG || records[i].kind == SYSCALL_EXIT ==> exists e :: FitsCall(records, e, i)
  }

  /** p is the call at e with the arguments recorded before record i. */
  ghost predicate Describes(p: Pending, records: seq<Record>, e: nat, i: nat) {
    && IsOpen(records, e, i) && p.thread == records[e].thread && p.ticket == records[e].ticket
      && p.number == records[e].aux
    && (forall a :: a in p.arguments ==> exists j :: IsArgument(records, e, i, a, j))
    && (forall a: nat, j: nat :: IsArgument(records, e, i, a, j) ==>
      a in p.arguments && p.arguments[a] == records[j].address)
  }

  ghost predicate PendingIsOpen(pending: Option<Pending>, records: seq<Record>, i: nat) {
    match pending
    case None => forall e :: !IsOpen(records, e, i)
    case Some(p) => exists e :: Describes(p, records, e, i)
  }

  lemma PendingStep(records: seq<Record>, i: nat, pending: Option<Pending>)
    requires i < |records| && PendingIsOpen(pending, records, i) && SyscallProblems(pending, records[i]) == []
    ensures PendingIsOpen(NextPending(pending, records[i]), records, i + 1)
  {
    var r, next := records[i], i + 1;
    if r.kind == SYSCALL {
      assert Describes(NextPending(pending, r).value, records, i, next);
    } else if r.kind == SYSCALL_EXIT {
      assert forall e: nat :: !IsOpen(records, e, next);
    } else if pending.Some? {
      var e :| Describes(pending.value, records, e, i);
      ArgumentStep(records, e, i, pending.value);
    } else {
      forall e: nat ensures !IsOpen(records, e, next) { assert !IsOpen(records, e, i); }
    }
  }

  lemma ArgumentStep(records: seq<Record>, e: nat, i: nat, p: Pending)
    requires i < |records| && Describes(p, records, e, i) && records[i].kind != SYSCALL
      && records[i].kind != SYSCALL_EXIT
    requires SyscallProblems(Some(p), records[i]) == []
    ensures Describes(NextPending(Some(p), records[i]).value, records, e, i + 1)
  {
    var q, next := NextPending(Some(p), records[i]).value, i + 1;
    forall a | a in q.arguments ensures exists j :: IsArgument(records, e, next, a, j) {
      if a in p.arguments {
        var j :| IsArgument(records, e, i, a, j);
        assert IsArgument(records, e, next, a, j);
      } else {
        assert IsArgument(records, e, next, a, i);
      }
    }
    forall a: nat, j: nat | IsArgument(records, e, next, a, j) ensures a in q.arguments
      && q.arguments[a] == records[j].address {
      if j < i { assert IsArgument(records, e, i, a, j); }
    }
  }

  /** As long as nothing was wrong, the pending call is the open one. */
  lemma {:induction false} PendingIsOpenCall(records: seq<Record>, i: nat)
    requires i <= |records| && forall k :: 0 <= k < i ==> FitsFrame(records, k)
    ensures PendingIsOpen(PendingOf(records[..i]), records, i)
  {
    if i > 0 {
      PendingIsOpenCall(records, i - 1);
      assert FitsFrame(records, i - 1) && records[..i][..i - 1] == records[..i - 1];
      PendingStep(records, i - 1, PendingOf(records[..i - 1]));
    }
  }

  lemma FrameIffPaired(records: seq<Record>, i: nat)
    requires i < |records| && forall k :: 0 <= k < i ==> FitsFrame(records, k)
    ensures FitsFrame(records, i) <==> IsPaired(records, i)
  {
    PendingIsOpenCall(records, i);
    var pending, r := PendingOf(records[..i]), records[i];
    if pending.Some? {
      var e :| Describes(pending.value, records, e, i);
      forall other | IsOpen(records, other, i) ensures other == e {}
      if FitsFrame(records, i) && (r.kind == SYSCALL_ARG || r.kind == SYSCALL_EXIT) { assert FitsCall(records, e, i); }
      if r.kind == SYSCALL_ARG && r.aux in pending.value.arguments {
        var j :| IsArgument(records, e, i, r.aux, j);
      }
    }
  }

  lemma {:induction false} FramesUpTo(records: seq<Record>, n: nat)
    requires n <= |records|
    ensures (forall k :: 0 <= k < n ==> FitsFrame(records, k)) <==> forall k :: 0 <= k < n ==> IsPaired(records, k)
  {
    if n > 0 {
      FramesUpTo(records, n - 1);
      if forall k :: 0 <= k < n - 1 ==> FitsFrame(records, k) { FrameIffPaired(records, n - 1); }
    }
  }

  // ----- No problem exactly if well-formed -----

  ghost predicate IsClean(minor: nat, before: seq<Record>, p: seq<Record>, i: nat)
    requires i < |p|
  {
    RecordProblems(minor, before + p[..i], p[..i], p[i]) == []
  }

  /** The first n records are not reported. */
  ghost predicate IsQuiet(minor: nat, before: seq<Record>, p: seq<Record>, n: nat) {
    forall q :: q == p && n <= |q| ==> FileProblems(minor, before, q[..n]) == []
  }

  lemma QuietNext(minor: nat, before: seq<Record>, p: seq<Record>, i: nat)
    requires i < |p|
    ensures IsQuiet(minor, before, p, i + 1) <==> IsQuiet(minor, before, p, i) && IsClean(minor, before, p, i)
  {
    assert p[..i + 1][..i] == p[..i];
    NoneOfBoth(FileProblems(minor, before, p[..i]), RecordProblems(minor, before + p[..i], p[..i], p[i]));
  }

  ghost predicate AreClean(minor: nat, before: seq<Record>, p: seq<Record>) {
    forall i :: 0 <= i < |p| ==> IsClean(minor, before, p, i)
  }

  lemma LastIsClean(minor: nat, before: seq<Record>, p: seq<Record>, i: nat)
    requires i < |p| && IsQuiet(minor, before, p, i + 1)
    ensures IsQuiet(minor, before, p, i) && IsClean(minor, before, p, i)
  {
    QuietNext(minor, before, p, i);
  }

  lemma {:induction false} QuietRecordIsClean(minor: nat, before: seq<Record>, p: seq<Record>, n: nat, i: nat)
    requires i < n <= |p| && IsQuiet(minor, before, p, n)
    ensures IsClean(minor, before, p, i)
  {
    LastIsClean(minor, before, p, n - 1);
    if i < n - 1 { QuietRecordIsClean(minor, before, p, n - 1, i); }
  }

  lemma NothingIsQuiet(minor: nat, before: seq<Record>, p: seq<Record>)
    ensures IsQuiet(minor, before, p, 0)
  {
    forall q: seq<Record> | q == p ensures FileProblems(minor, before, q[..0]) == [] { assert q[..0] == []; }
  }

  lemma QuietStep(minor: nat, before: seq<Record>, p: seq<Record>, i: nat)
    requires i < |p| && IsQuiet(minor, before, p, i) && AreClean(minor, before, p)
    ensures IsQuiet(minor, before, p, i + 1)
  {
    QuietNext(minor, before, p, i);
  }

  lemma {:induction false} CleanRecordsAreQuiet(minor: nat, before: seq<Record>, p: seq<Record>, n: nat)
    requires n <= |p| && AreClean(minor, before, p)
    ensures IsQuiet(minor, before, p, n)
  {
    if n == 0 {
      NothingIsQuiet(minor, before, p);
    } else {
      CleanRecordsAreQuiet(minor, before, p, n - 1);
      QuietStep(minor, before, p, n - 1);
    }
  }

  lemma AllQuiet(minor: nat, before: seq<Record>, p: seq<Record>)
    ensures IsQuiet(minor, before, p, |p|) <==> FileProblems(minor, before, p) == []
  {
    assert p[..|p|] == p;
  }

  lemma FileProblemsByRecord(minor: nat, before: seq<Record>, p: seq<Record>)
    ensures FileProblems(minor, before, p) == [] <==> AreClean(minor, before, p)
  {
    AllQuiet(minor, before, p);
    if IsQuiet(minor, before, p, |p|) {
      forall i | 0 <= i < |p| ensures IsClean(minor, before, p, i) { QuietRecordIsClean(minor, before, p, |p|, i); }
    }
    if AreClean(minor, before, p) { CleanRecordsAreQuiet(minor, before, p, |p|); }
  }

  lemma NoneOfBoth<T>(a: seq<T>, b: seq<T>)
    ensures a + b == [] <==> a == [] && b == []
  {
  }

  /** Nothing is reported of the record: it fits its thread's numbering, the syscall frame, and its fields are sound. */
  lemma CleanRecord(minor: nat, before: seq<Record>, p: seq<Record>, i: nat)
    requires i < |p|
    ensures IsClean(minor, before, p, i)
       <==> FitsFrame(p, i) && ContinuesAt(before, p, i) && FieldsAreSound(minor, p[i])
  {
    var frame, sequence := SyscallProblems(PendingOf(p[..i]), p[i]),
      SequenceProblems(PreviousOf(before + p[..i]), p[i]);
    var flags, range := FlagProblems(minor, p[i]), RangeProblems(p[i]);
    NoneOfBoth(frame + sequence + flags, range);
    NoneOfBoth(frame + sequence, flags);
    NoneOfBoth(frame, sequence);
    SoundFields(minor, p[i]);
  }

  lemma SoundFields(minor: nat, r: Record)
    ensures FlagProblems(minor, r) == [] && RangeProblems(r) == [] <==> FieldsAreSound(minor, r)
  {
  }

  lemma CleanByKind(minor: nat, before: seq<Record>, p: seq<Record>)
    ensures AreClean(minor, before, p)
      <==>
      && (forall i :: 0 <= i < |p| ==> FitsFrame(p, i))
      && (forall i :: 0 <= i < |p| ==> ContinuesAt(before, p, i))
      && (forall i :: 0 <= i < |p| ==> FieldsAreSound(minor, p[i]))
  {
    forall i | 0 <= i < |p|
      ensures IsClean(minor, before, p, i) <==>
        FitsFrame(p, i) && ContinuesAt(before, p, i) && FieldsAreSound(minor, p[i]) {
      CleanRecord(minor, before, p, i);
    }
  }

  lemma FileProblemsByKind(minor: nat, before: seq<Record>, p: seq<Record>)
    requires HaveNoGaps(before)
    ensures FileProblems(minor, before, p) == []
       <==> ArePaired(p) && HaveNoGaps(before + p) && forall r :: r in p ==> FieldsAreSound(minor, r)
  {
    FileProblemsByRecord(minor, before, p);
    CleanByKind(minor, before, p);
    NoGapsOfBoth(before, p);
    FramesUpTo(p, |p|);
    PairedByIndex(p);
  }

  lemma PairedByIndex(p: seq<Record>)
    ensures ArePaired(p) <==> forall i :: 0 <= i < |p| ==> IsPaired(p, i)
  {
    if ArePaired(p) {
      forall i | 0 <= i < |p| ensures IsPaired(p, i) {}
    }
    if forall i :: 0 <= i < |p| ==> IsPaired(p, i) {
      forall i | 0 <= i < |p| && (p[i].kind == SYSCALL_ARG || p[i].kind == SYSCALL_EXIT)
        ensures exists e :: FitsCall(p, e, i) {
        assert IsPaired(p, i);
      }
    }
  }

  lemma {:induction false} ProcessedIffKnown(records: seq<Record>)
    ensures Processed(records) == records <==> forall r :: r in records ==> IsKnownKind(r.kind)
  {
    var n := |Processed(records)|;
    assert n < |records| ==> records[n] in records;
  }

  /** The file reports nothing of its own exactly if it is sound, given the numbering so far. */
  lemma FileIffSound(file: TraceFile, before: seq<Record>)
    requires HaveNoGaps(before)
    ensures FileProblems(file.minor, before, Processed(file.records)) + EndOfFile(file) == []
       <==> IsSoundFile(file) && HaveNoGaps(before + file.records)
  {
    ProcessedIffKnown(file.records);
    if !IsBroken(file) {
      FileProblemsByKind(file.minor, before, file.records);
    }
  }

  lemma {:induction false} FlatIsAll(files: seq<TraceFile>)
    requires forall f :: f in files ==> IsSoundFile(f)
    ensures Flat(files) == AllRecords(files)
  {
    if files != [] {
      var n := |files| - 1;
      forall f | f in files[..n] ensures IsSoundFile(f) { assert f in files; }
      assert IsSoundFile(files[n]) by { assert files[n] in files; }
      FlatIsAll(files[..n]);
      ProcessedIffKnown(files[n].records);
    }
  }

  lemma NoGapsPrefix(before: seq<Record>, p: seq<Record>)
    requires HaveNoGaps(before + p)
    ensures HaveNoGaps(before)
  {
    NoGapsOfBoth(before, p);
  }

  lemma {:induction false} FilesIffSound(files: seq<TraceFile>)
    ensures TraceProblems(files) == [] <==> (forall f :: f in files ==> IsSoundFile(f)) && HaveNoGaps(AllRecords(files))
  {
    if files != [] {
      var init, last := files[..|files| - 1], files[|files| - 1];
      FilesIffSound(init);
      assert forall f :: f in files <==> f in init || f == last;
      var own := FileProblems(last.minor, Flat(init), Processed(last.records));
      Associative(TraceProblems(init), own, EndOfFile(last));
      NoneOfBoth(TraceProblems(init), own + EndOfFile(last));
      if TraceProblems(init) == [] {
        FlatIsAll(init);
        FileIffSound(last, Flat(init));
      } else if HaveNoGaps(AllRecords(files)) {
        NoGapsPrefix(AllRecords(init), last.records);
      }
    }
  }

  /** A trace is reported complete exactly if its files are sound and its threads are numbered. */
  lemma NoProblemsIffWellFormed(files: seq<TraceFile>)
    ensures files != [] && TraceProblems(files) == [] <==> IsWellFormed(files)
    ensures IsWellFormed(files) ==> Flat(files) == AllRecords(files)
  {
    FilesIffSound(files);
    NumberedIffNoGaps(AllRecords(files));
    if IsWellFormed(files) { FlatIsAll(files); }
  }

  // ----- What the analyses may rely on -----

  function KindOf(kind: nat): EventKind {
    if kind == 1 then LOAD else if kind == 2 then STORE else if kind == 3 then ATOMIC_RMW
    else if kind == 4 then LFENCE else if kind == 5 then SFENCE else if kind == 6 then MFENCE
    else if kind == 37 then FUTEX_WAIT else LIFECYCLE(kind)
  }

  function EventOf(r: Record): TraceEvent {
    TraceEvent(r.thread, r.sequence, r.ticket, KindOf(r.kind), r.address, r.size, r.value, r.flags % 2 == 1)
  }

  lemma {:induction false} CountGrows(all: seq<Record>, i: nat, j: nat, thread: nat)
    requires i <= j <= |all|
    ensures CountOf(all[..i], thread) <= CountOf(all[..j], thread)
    ensures i < j && all[i].thread == thread ==> CountOf(all[..i], thread) < CountOf(all[..j], thread)
    decreases j
  {
    if i < j {
      assert all[..j][..j - 1] == all[..j - 1];
      CountGrows(all, i, j - 1, thread);
    }
  }

  /** Different records of a numbered trace differ in thread or sequence number. */
  lemma NumbersIdentify(all: seq<Record>, i: nat, j: nat)
    requires AreNumbered(all) && i < j < |all| && all[i].thread == all[j].thread
    ensures all[i].sequence < all[j].sequence
  {
    CountGrows(all, i, j, all[i].thread);
  }

  lemma SameNumberSameRecord(all: seq<Record>, a: Record, b: Record)
    requires AreNumbered(all) && a in all && b in all && a.thread == b.thread && a.sequence == b.sequence
    ensures a == b
  {
    var i :| 0 <= i < |all| && all[i] == a;
    var j :| 0 <= j < |all| && all[j] == b;
    if i < j { NumbersIdentify(all, i, j); }
    if j < i { NumbersIdentify(all, j, i); }
  }

  lemma {:induction false} RecordIsInFile(files: seq<TraceFile>, r: Record) returns (f: TraceFile)
    requires r in AllRecords(files)
    ensures f in files && r in f.records
  {
    var n := |files| - 1;
    if r in files[n].records {
      f := files[n];
    } else {
      f := RecordIsInFile(files[..n], r);
    }
  }

  /** Whatever different events are picked from a well-formed trace, they are what the window checker assumes. */
  lemma WellFormedTraceIsValid(files: seq<TraceFile>, events: seq<TraceEvent>)
    requires IsWellFormed(files)
    requires forall i, j :: 0 <= i < j < |events| ==> events[i] != events[j]
    requires forall e :: e in events ==> exists r :: r in AllRecords(files) && EventOf(r) == e
    ensures ValidEvents(events)
    ensures forall e :: e in events && e.IsMemory() ==> e.EndAddress() <= ADDRESS_SPACE
  {
    var all := AllRecords(files);
    forall a, b | a in events && b in events && a.thread == b.thread && a.sequence == b.sequence ensures a == b {
      var r :| r in all && EventOf(r) == a;
      var s :| s in all && EventOf(s) == b;
      SameNumberSameRecord(all, r, s);
    }
    forall e | e in events && e.IsMemory() ensures e.size > 0 && e.EndAddress() <= ADDRESS_SPACE {
      var r :| r in all && EventOf(r) == e;
      var f := RecordIsInFile(files, r);
      assert FieldsAreSound(f.minor, r);
    }
  }

  // ----- What becomes of syscalls -----

  /** The entries of syscalls, in order. */
  function Entries(records: seq<Record>): seq<(nat, nat, nat)> {
    if records == [] then []
    else
      var r := records[|records| - 1];
      Entries(records[..|records| - 1]) + if r.kind == SYSCALL then [(r.thread, r.ticket, r.aux)] else []
  }

  function Heads(observations: seq<Observation>): (h: seq<(nat, nat, nat)>)
    ensures |h| == |observations|
  {
    if observations == [] then []
    else
      var o := observations[|observations| - 1];
      Heads(observations[..|observations| - 1]) + [(o.thread, o.ticket, o.number)]
  }

  lemma {:induction false} HeadsOfBoth(a: seq<Observation>, b: seq<Observation>)
    ensures Heads(a + b) == Heads(a) + Heads(b)
  {
    if b == [] {
      assert a + b == a;
    } else {
      var n := |b| - 1;
      assert (a + b)[..|a + b| - 1] == a + b[..n];
      HeadsOfBoth(a, b[..n]);
    }
  }

  /** What a record emits and what it leaves pending are what was pending and what the record enters. */
  lemma HeadsStep(pending: Option<Pending>, r: Record, result: Option<nat>)
    ensures Heads(Emitted(pending, r) + Finished(NextPending(pending, r), None))
         == Heads(Finished(pending, None)) + if r.kind == SYSCALL then [(r.thread, r.ticket, r.aux)] else []
  {
    HeadsOfBoth(Emitted(pending, r), Finished(NextPending(pending, r), None));
    if pending.Some? {
      assert Finished(pending, None)[..0] == [] && Finished(pending, Some(r.value))[..0] == [];
    }
    if NextPending(pending, r).Some? { assert Finished(NextPending(pending, r), None)[..0] == []; }
  }

  lemma {:induction false} FileEntriesAreObserved(p: seq<Record>)
    ensures Heads(FileObservations(p) + Finished(PendingOf(p), None)) == Entries(p)
  {
    if p != [] {
      var n := |p| - 1;
      var before, pending := FileObservations(p[..n]), PendingOf(p[..n]);
      FileEntriesAreObserved(p[..n]);
      EntryIsObserved(before, pending, p[n], Entries(p[..n]));
    }
  }

  lemma EntryIsObserved(before: seq<Observation>, pending: Option<Pending>, r: Record, entries: seq<(nat, nat, nat)>)
    requires Heads(before + Finished(pending, None)) == entries
    ensures Heads(before + Emitted(pending, r) + Finished(NextPending(pending, r), None))
         == entries + if r.kind == SYSCALL then [(r.thread, r.ticket, r.aux)] else []
  {
    var emitted, left := Emitted(pending, r), Finished(NextPending(pending, r), None);
    HeadsStep(pending, r, None);
    HeadsOfBoth(before, Finished(pending, None));
    Associative(before, emitted, left);
    HeadsOfBoth(before, emitted + left);
    Associative(Heads(before), Heads(Finished(pending, None)), if r.kind == SYSCALL then [(r.thread, r.ticket, r.aux)]
      else []);
  }

  lemma {:induction false} EntriesOfBoth(a: seq<Record>, b: seq<Record>)
    ensures Entries(a + b) == Entries(a) + Entries(b)
  {
    if b == [] {
      assert a + b == a;
    } else {
      var n := |b| - 1;
      assert (a + b)[..|a + b| - 1] == a + b[..n];
      EntriesOfBoth(a, b[..n]);
    }
  }

  /** In any trace, also a faulty one, each syscall entry yields one observation, in order. */
  lemma {:induction false} EntriesAreObserved(files: seq<TraceFile>)
    ensures Heads(TraceObservations(files)) == Entries(Flat(files))
  {
    if files != [] {
      var n := |files| - 1;
      var p := Processed(files[n].records);
      EntriesAreObserved(files[..n]);
      FileEntriesAreObserved(p);
      EntriesOfBoth(Flat(files[..n]), p);
      Associative(TraceObservations(files[..n]), FileObservations(p), Finished(PendingOf(p), None));
      HeadsOfBoth(TraceObservations(files[..n]), FileObservations(p) + Finished(PendingOf(p), None));
    }
  }

  /** In a sound file a return closes the call it belongs to, with its value and the arguments recorded in between. */
  lemma ReturnClosesItsCall(records: seq<Record>, i: nat) returns (e: nat, p: Pending)
    requires ArePaired(records) && i < |records| && records[i].kind == SYSCALL_EXIT
    ensures FitsCall(records, e, i) && Describes(p, records, e, i)
    ensures Emitted(PendingOf(records[..i]), records[i])
         == [Observation(records[e].thread, records[e].ticket, records[i].aux, InOrder(p.arguments, 6),
           Some(records[i].value))]
  {
    FramesUpTo(records, i);
    assert forall k :: 0 <= k < i ==> IsPaired(records, k);
    PendingIsOpenCall(records, i);
    assert IsPaired(records, i);
    var other :| FitsCall(records, other, i);
    p := PendingOf(records[..i]).value;
    e :| Describes(p, records, e, i);
    assert e == other;
  }

  ghost predicate IsCallPart(r: Record) {
    r.kind == SYSCALL_ARG || r.kind == SYSCALL_EXIT
  }

  /** Each argument and each return is taken for a call of its own thread. */
  ghost predicate StaysInThread(records: seq<Record>) {
    forall i :: 0 <= i < |records| && IsCallPart(records[i]) ==> IsTakenFor(PendingOf(records[..i]), records[i].thread)
  }

  ghost predicate IsTakenFor(pending: Option<Pending>, thread: nat) {
    pending.Some? && pending.value.thread == thread
  }

  /** No argument or return of another thread lies inside an open call. */
  ghost predicate NoForeignPart(records: seq<Record>) {
    forall e: nat, i: nat :: i < |records| && IsOpen(records, e, i) && IsCallPart(records[i])
      ==> records[i].thread == records[e].thread
  }

  /** What a part of a call is taken for is the one open call. */
  lemma PartOfOpenCall(records: seq<Record>, i: nat) returns (e: nat)
    requires ArePaired(records) && i < |records| && IsCallPart(records[i])
    ensures IsOpen(records, e, i) && IsTakenFor(PendingOf(records[..i]), records[e].thread)
    ensures forall other :: IsOpen(records, other, i) ==> other == e
  {
    FramesUpTo(records, i);
    assert forall k :: 0 <= k < i ==> IsPaired(records, k);
    PendingIsOpenCall(records, i);
    assert IsPaired(records, i);
    var fit :| FitsCall(records, fit, i);
    e :| Describes(PendingOf(records[..i]).value, records, e, i);
  }

  /** In a sound file the pairing stays inside threads, exactly if no argument or return of another thread lies
      inside an open call. */
  lemma PairingIsWithinThreads(records: seq<Record>)
    requires ArePaired(records)
    ensures StaysInThread(records) <==> NoForeignPart(records)
  {
    forall i | 0 <= i < |records| && IsCallPart(records[i])
      ensures IsTakenFor(PendingOf(records[..i]), records[i].thread)
         <==> forall e: nat :: IsOpen(records, e, i) ==> records[i].thread == records[e].thread {
      var e := PartOfOpenCall(records, i);
    }
  }

  /** Which is so if the file holds the records of one thread, as the tracing client writes them. */
  lemma OneThreadPerFile(records: seq<Record>)
    requires ArePaired(records) && forall r, s :: r in records && s in records ==> r.thread == s.thread
    ensures StaysInThread(records)
  {
    PairingIsWithinThreads(records);
    forall e: nat, i: nat | i < |records| && IsOpen(records, e, i) && IsCallPart(records[i])
      ensures records[i].thread == records[e].thread {
      assert records[i] in records && records[e] in records;
    }
  }

  lemma ForeignArgument(records: seq<Record>, enter: Record, argument: Record)
    requires records == [enter, argument] && enter.kind == SYSCALL && argument.kind == SYSCALL_ARG
    requires argument.value == enter.aux && argument.aux < 6
    requires enter.sequence == argument.sequence == 1 && enter.thread != argument.thread
    ensures FitsCall(records, 0, 1) && ArePaired(records) && AreNumbered(records)
  {
    assert records[..1] == [enter] && records[..0] == [] && [enter][..0] == [];
    assert CountOf(records[..1], argument.thread) == 0;
    assert FitsCall(records, 0, 1);
    forall i | 0 <= i < |records| && records[i].kind == SYSCALL_ARG
      ensures exists e :: FitsCall(records, e, i) { assert i == 1; }
  }

  lemma OneSoundFile(file: TraceFile)
    requires IsSoundFile(file) && AreNumbered(file.records)
    ensures IsWellFormed([file])
  {
    assert [file][..0] == [];
    assert AllRecords([file]) == file.records;
  }

  /** Nothing compares the threads: an argument that another thread recorded is taken for the call that is open. */
  lemma ForeignArgumentsAreTaken() returns (file: TraceFile)
    ensures IsWellFormed([file])
    ensures |file.records| == 2 && FitsCall(file.records, 0, 1) && file.records[1].kind == SYSCALL_ARG
    ensures file.records[0].thread != file.records[1].thread && !StaysInThread(file.records)
  {
    var enter, argument := Record(SYSCALL, 0, 1, 1, 0, 0, 0, 0, 0, 7, None),
      Record(SYSCALL_ARG, 0, 2, 1, 0, 0, 0, 7, 0, 0, None);
    file := TraceFile(2, [enter, argument], false);
    ForeignArgument(file.records, enter, argument);
    PairingIsWithinThreads(file.records);
    OneSoundFile(file);
  }
}

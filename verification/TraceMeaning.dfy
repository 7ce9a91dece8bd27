/** When a trace is well-formed, in the numbers of its records. */
module TraceMeaning {
  import opened TraceFormat
  import opened TraceLayout
  import opened TraceValidation

  /** Fields that make sense by themselves: a known code, flags below 64, the operand flag on accesses of format 1.2
      only, and accesses that end inside the address space. */
  predicate IsSensible(r: Record, minor: nat) {
    && IsCode(r.kind) && r.flags < 64
    && (r.flags / 32 % 2 == 1 ==> IsAccessCode(r.kind) && 2 <= minor)
    && (IsAccessCode(r.kind) ==> 1 <= r.size && r.address + r.size <= 0x1_0000_0000_0000_0000)
  }

  /** Record e enters a syscall, and nothing enters or returns before record i. */
  ghost predicate Encloses(records: seq<Record>, e: nat, i: nat) {
    && e < i < |records| && records[e].kind == 33
    && forall j :: e < j < i ==> records[j].kind != 33 && records[j].kind != 35
  }

  /** The record is an argument of the call: it repeats its number and is the first for its index below six. */
  ghost predicate IsArgumentFor(records: seq<Record>, e: nat, i: nat) {
    && Encloses(records, e, i) && records[i].value == records[e].aux && records[i].aux < 6
    && forall j :: e < j < i && records[j].kind == 36 ==> records[j].aux != records[i].aux
  }

  ghost predicate IsReturnOf(records: seq<Record>, e: nat, i: nat) {
    Encloses(records, e, i) && records[i].aux == records[e].aux
  }

  /** Arguments and returns belong to a call of the same number. */
  ghost predicate CallsAreClean(records: seq<Record>) {
    forall i: nat :: i < |records| ==>
      && (records[i].kind == 36 ==> exists e :: IsArgumentFor(records, e, i))
      && (records[i].kind == 35 ==> exists e :: IsReturnOf(records, e, i))
  }

  ghost predicate IsCleanFile(file: TraceFile) {
    && !file.damaged && file.records != [] && CallsAreClean(file.records)
    && forall r :: r in file.records ==> IsSensible(r, file.minor)
  }

  function Joined(files: seq<TraceFile>): seq<Record> {
    if files == [] then [] else files[0].records + Joined(files[1..])
  }

  /** The records of the same thread before record i. */
  ghost function EarlierOnes(all: seq<Record>, i: nat): set<nat>
    requires i < |all|
  {
    set j: nat | j < i && all[j].thread == all[i].thread
  }

  ghost predicate CountsUp(all: seq<Record>) {
    forall i: nat :: i < |all| ==> all[i].sequence == |EarlierOnes(all, i)| + 1
  }

  /** There are files, each is clean, and each thread numbers its records 1, 2, 3, ... through all of them. */
  ghost predicate IsCleanTrace(files: seq<TraceFile>) {
    files != [] && (forall f :: f in files ==> IsCleanFile(f)) && CountsUp(Joined(files))
  }

  lemma SensibleIsSound(r: Record, minor: nat)
    ensures IsKnownKind(r.kind) && FieldsAreSound(minor, r) <==> IsSensible(r, minor)
  {
  }

  lemma CleanIsPaired(records: seq<Record>)
    ensures ArePaired(records) <==> CallsAreClean(records)
  {
    forall i: nat, e: nat | i < |records|
      ensures records[i].kind == 36 ==> (FitsCall(records, e, i) <==> IsArgumentFor(records, e, i))
      ensures records[i].kind == 35 ==> (FitsCall(records, e, i) <==> IsReturnOf(records, e, i)) {
      CallAgrees(records, e, i);
    }
    PairedByIndex(records);
    forall i: nat | i < |records|
      ensures IsPaired(records, i)
         <==> && (records[i].kind == 36 ==> exists e :: IsArgumentFor(records, e, i))
              && (records[i].kind == 35 ==> exists e :: IsReturnOf(records, e, i)) {
      PairAgrees(records, i);
    }
  }

  lemma PairAgrees(records: seq<Record>, i: nat)
    requires i < |records|
    requires forall e: nat :: records[i].kind == 36 ==> (FitsCall(records, e, i) <==> IsArgumentFor(records, e, i))
    requires forall e: nat :: records[i].kind == 35 ==> (FitsCall(records, e, i) <==> IsReturnOf(records, e, i))
    ensures IsPaired(records, i)
       <==> && (records[i].kind == 36 ==> exists e :: IsArgumentFor(records, e, i))
            && (records[i].kind == 35 ==> exists e :: IsReturnOf(records, e, i))
  {
  }

  lemma CallAgrees(records: seq<Record>, e: nat, i: nat)
    requires i < |records|
    ensures records[i].kind == 36 ==> (FitsCall(records, e, i) <==> IsArgumentFor(records, e, i))
    ensures records[i].kind == 35 ==> (FitsCall(records, e, i) <==> IsReturnOf(records, e, i))
  {
    if IsOpen(records, e, i) {
      forall j: nat
        ensures IsArgument(records, e, i, records[i].aux, j)
           <==> e < j < i && records[j].kind == 36 && records[j].aux == records[i].aux {
      }
    }
  }

  lemma {:induction false} JoinedIsAll(files: seq<TraceFile>)
    ensures Joined(files) == AllRecords(files)
  {
    if |files| == 1 {
      assert files[..0] == [] && files[1..] == [];
    } else if files != [] {
      var n := |files| - 1;
      JoinedIsAll(files[1..]);
      JoinedIsAll(files[..n]);
      JoinedIsAll(files[1..n]);
      assert files[1..][..n - 1] == files[1..n] && files[..n][1..] == files[1..n];
      assert files[0].records + (AllRecords(files[1..n]) + files[n].records)
          == (files[0].records + AllRecords(files[1..n])) + files[n].records;
    }
  }

  ghost function OfThread(all: seq<Record>, n: nat, thread: nat): set<nat>
    requires n <= |all|
  {
    set j: nat | j < n && all[j].thread == thread
  }

  lemma {:induction false} CountedBefore(all: seq<Record>, n: nat, thread: nat)
    requires n <= |all|
    ensures CountOf(all[..n], thread) == |OfThread(all, n, thread)|
  {
    if n == 0 {
      assert OfThread(all, n, thread) == {};
    } else {
      CountedBefore(all, n - 1, thread);
      assert all[..n][..n - 1] == all[..n - 1];
      assert OfThread(all, n, thread)
          == OfThread(all, n - 1, thread) + if all[n - 1].thread == thread then {n - 1} else {};
    }
  }

  lemma NumberedCountsUp(all: seq<Record>)
    ensures AreNumbered(all) <==> CountsUp(all)
  {
    forall i: nat | i < |all| ensures CountOf(all[..i], all[i].thread) == |EarlierOnes(all, i)| {
      CountedBefore(all, i, all[i].thread);
      assert OfThread(all, i, all[i].thread) == EarlierOnes(all, i);
    }
  }

  /** The trace is found complete exactly if it is clean in this sense. */
  lemma WellFormedIsClean(files: seq<TraceFile>)
    ensures IsWellFormed(files) <==> IsCleanTrace(files)
  {
    JoinedIsAll(files);
    NumberedCountsUp(Joined(files));
    forall f | f in files ensures IsSoundFile(f) <==> IsCleanFile(f) {
      CleanIsPaired(f.records);
      forall r | r in f.records
        ensures IsKnownKind(r.kind) && FieldsAreSound(f.minor, r) <==> IsSensible(r, f.minor) {
        SensibleIsSound(r, f.minor);
      }
    }
  }

  /** Threads share a trace with syscalls, and their effects are not recorded or not all known. */
  ghost predicate HasOpenSyscalls(all: seq<Record>, effectsAreKnown: bool) {
    && (exists r, s :: r in all && s in all && r.thread != s.thread) && (exists r :: r in all && r.kind == 33)
    && ((exists r :: r in all && (r.kind == 35 || r.kind == 36)) ==> !effectsAreKnown)
  }

  lemma SeveralThreads(all: seq<Record>)
    ensures |Threads(all)| > 1 <==> exists r, s :: r in all && s in all && r.thread != s.thread
  {
    if |Threads(all)| > 1 {
      var t :| t in Threads(all);
      assert |Threads(all) - {t}| > 0;
      var u :| u in Threads(all) - {t};
    }
    if r, s :| r in all && s in all && r.thread != s.thread {
      assert {r.thread, s.thread} <= Threads(all);
      SubsetSize({r.thread, s.thread}, Threads(all));
    }
  }

  lemma SubsetSize(s: set<nat>, t: set<nat>)
    requires s <= t
    ensures |s| <= |t|
  {
    assert t == s + (t - s);
  }

  lemma OpenSyscalls(files: seq<TraceFile>, all: seq<Record>, effectsAreKnown: bool)
    requires all == Flat(files)
    ensures IsOpaque(files) || (HasSharedSyscalls(files) && !effectsAreKnown) <==> HasOpenSyscalls(all, effectsAreKnown)
  {
    SeveralThreads(all);
    assert HasKind(all, SYSCALL) <==> exists r :: r in all && r.kind == 33;
    MetadataByCode(all);
  }

  lemma MetadataByCode(all: seq<Record>)
    ensures HasMetadata(all) <==> exists r :: r in all && (r.kind == 35 || r.kind == 36)
  {
    if r :| r in all && (r.kind == 35 || r.kind == 36) { assert HasKind(all, r.kind); }
  }

  /** The verdict: complete exactly if the manifest is clean and the trace is; valid exactly if no syscall is open
      besides. */
  lemma VerdictByRecords(manifest: seq<Reason>, files: seq<TraceFile>, effects: seq<Reason>, complete: bool,
                         valid: bool)
    requires complete <==> manifest == [] && IsWellFormed(files)
    requires valid <==> complete && !(IsOpaque(files) || (HasSharedSyscalls(files) && effects != []))
    ensures complete <==> manifest == [] && IsCleanTrace(files)
    ensures valid <==> complete && !HasOpenSyscalls(Joined(files), effects == [])
  {
    WellFormedIsClean(files);
    if complete {
      NoProblemsIffWellFormed(files);
      JoinedIsAll(files);
      OpenSyscalls(files, Joined(files), effects == []);
    }
  }
}

/** What the answers of the window checker mean for the accesses of the window, byte by byte. */
module WindowMeaning {
  import opened Events
  import opened Kinds
  import opened ReadParts
  import opened Values
  import opened ValueBytes
  import opened Executions
  import opened UniformWindows
  import opened WindowChecker
  import opened Machines

  // ----- Safe, and candidates -----

  /** No answer "safe" is given if RVWMO can show an execution that x86-TSO cannot. */
  lemma SafeMeans(events: seq<TraceEvent>)
    requires ValidEvents(events)
    ensures (forall x :: !TargetOnly(events, x)) <==> forall x :: !IsForeign(events, x)
  {
    forall x ensures TargetOnly(events, x) <==> IsForeign(events, x) { TargetOnlyIsForeign(events, x); }
  }

  /** The store that a whole read takes its bytes from. */
  function SourceOf(x: Execution, r: TraceEvent): Option<TraceEvent> {
    var whole := ReadPart(r, r.address, r.size);
    if whole in x.rf then x.rf[whole] else None
  }

  /** Each byte of the read was recorded and is the recorded byte of its source. */
  ghost predicate IsConfirmed(x: Execution, r: TraceEvent) {
    match SourceOf(x, r)
    case None => false
    case Some(w) => AreRecorded(r, w) && w.address <= r.address && ShowsBytes(r, w, r.address, r.size)
  }

  lemma ListedSource(events: seq<TraceEvent>, result: WindowResult, i: nat)
    requires result.Candidate? && Distinct(Reads(events)) && SourcesAreChoices(events, result.sources)
    requires OrdersEveryLocation(events, result.orders) && i < |Reads(events)|
    ensures SourceOf(Listed(events, result.sources, result.orders), Reads(events)[i]) == result.sources[i]
  {
    var loads, whole := Reads(events), WholePart(Reads(events)[i]);
    var rf := Listed(events, result.sources, result.orders).rf;
    assert whole in rf;
    forall k | 0 <= k < |loads| && WholePart(loads[k]) == whole ensures k == i {}
  }

  /** A candidate is an execution that RVWMO can show and x86-TSO cannot, with the reported sources and store orders.
      It counts as a counterexample exactly if the control flow is closed and all recorded bytes confirm it. */
  lemma CandidateMeans(events: seq<TraceEvent>, controlFlowClosed: bool, result: WindowResult) returns (x: Execution)
    requires ValidEvents(events) && result.Candidate? && IsWitness(events, controlFlowClosed, result)
    ensures IsForeign(events, x)
    ensures result.validated <==> controlFlowClosed && forall r :: r in events && Loads(r.kind) ==> IsConfirmed(x, r)
    ensures forall i :: 0 <= i < |result.sources| ==> SourceOf(x, Reads(events)[i]) == result.sources[i]
    ensures forall w :: w in events && Stores(w.kind) ==>
      && Location(w.address, w.size) in result.orders && w in x.line
      && x.line[w] == result.orders[Location(w.address, w.size)]
  {
    x := Listed(events, result.sources, result.orders);
    TargetOnlyIsForeign(events, x);
    var loads := Reads(events);
    forall i | 0 <= i < |loads|
      ensures SourceOf(x, loads[i]) == result.sources[i]
      ensures SourceExplains(loads[i], result.sources[i]) <==> IsConfirmed(x, loads[i]) {
      ListedSource(events, result, i);
      ExplainedByBytes(loads[i], result.sources[i]);
    }
    forall r | r in events ensures r in loads <==> Loads(r.kind) { KindsAgree(r); }
    forall w | w in events ensures w in Writes(events) <==> Stores(w.kind) { KindsAgree(w); }
    if forall i :: 0 <= i < |loads| ==> IsConfirmed(x, loads[i]) {
      forall r | r in events && Loads(r.kind) ensures IsConfirmed(x, r) {
        var i :| 0 <= i < |loads| && loads[i] == r;
      }
    }
    if forall r :: r in events && Loads(r.kind) ==> IsConfirmed(x, r) {
      forall i | 0 <= i < |loads| ensures SourceExplains(loads[i], result.sources[i]) { assert loads[i] in loads; }
    }
  }

  // ----- Which windows are not enumerated -----

  /** Two stores share bytes but not their whole range. */
  ghost predicate AreMixed(events: seq<TraceEvent>, a: TraceEvent, b: TraceEvent) {
    && a in events && b in events && Stores(a.kind) && Stores(b.kind) && ShareByte(a, b)
    && !(a.address == b.address && a.size == b.size)
  }

  /** The store writes some bytes of the load but not all. */
  ghost predicate IsCut(events: seq<TraceEvent>, r: TraceEvent, w: TraceEvent) {
    && r in events && w in events && Loads(r.kind) && Stores(w.kind) && ShareByte(r, w)
    && exists byte: int :: Touches(r, byte) && !Touches(w, byte)
  }

  lemma MixedAgrees(events: seq<TraceEvent>, a: TraceEvent, b: TraceEvent)
    requires ValidEvents(events)
    ensures a in Writes(events) && b in Writes(events) && IsMixedPair(a, b) <==> AreMixed(events, a, b)
  {
    KindsAgree(a);
    KindsAgree(b);
    if a in events && b in events && Stores(a.kind) && Stores(b.kind) { OverlapIsShared(a, b); }
  }

  lemma CutAgrees(events: seq<TraceEvent>, r: TraceEvent, w: TraceEvent)
    requires ValidEvents(events)
    ensures r in Reads(events) && w in Writes(events) && w.Overlaps(r) && !Covers(w, r.address, r.EndAddress())
       <==> IsCut(events, r, w)
  {
    KindsAgree(r);
    KindsAgree(w);
    if r in events && w in events && Loads(r.kind) && Stores(w.kind) {
      OverlapIsShared(w, r);
      if w.Overlaps(r) && !Covers(w, r.address, r.EndAddress()) {
        var byte: int := if r.address < w.address then r.address else r.address + r.size - 1;
        assert Touches(r, byte) && !Touches(w, byte);
      }
    }
  }

  /** Left undecided: two stores of which one is an atomic share bytes but not their range. */
  lemma MixedAtomicsByBytes(events: seq<TraceEvent>)
    requires ValidEvents(events)
    ensures HasMixedAtomics(Writes(events))
       <==> exists a, b :: AreMixed(events, a, b) && (a.kind == ATOMIC_RMW || b.kind == ATOMIC_RMW)
  {
    var writes := Writes(events);
    if a, b :| a in writes && b in writes && IsAtomicPair(a, b) { MixedAgrees(events, a, b); }
    if a, b :| AreMixed(events, a, b) && (a.kind == ATOMIC_RMW || b.kind == ATOMIC_RMW) {
      MixedAgrees(events, a, b);
      assert IsAtomicPair(a, b);
    }
  }

  lemma CutReads(events: seq<TraceEvent>, r: TraceEvent)
    requires ValidEvents(events)
    ensures r in Reads(events) && IsPartial(r, Writes(events)) <==> exists w :: IsCut(events, r, w)
  {
    if r in Reads(events) && IsPartial(r, Writes(events)) {
      var w :| w in Writes(events) && w.Overlaps(r) && !Covers(w, r.address, r.EndAddress());
      CutAgrees(events, r, w);
    }
    if w :| IsCut(events, r, w) { CutAgrees(events, r, w); }
  }

  /** Left undecided too: a store writes some but not all bytes that an atomic reads. */
  lemma PartialAtomicsByBytes(events: seq<TraceEvent>)
    requires ValidEvents(events)
    ensures HasPartialAtomics(Reads(events), Writes(events))
       <==> exists r, w :: IsCut(events, r, w) && r.kind == ATOMIC_RMW
  {
    forall r ensures r in Reads(events) && IsPartial(r, Writes(events)) <==> exists w :: IsCut(events, r, w) {
      CutReads(events, r);
    }
    if r, w :| IsCut(events, r, w) && r.kind == ATOMIC_RMW {
      assert r in Reads(events) && IsPartial(r, Writes(events));
    }
  }

  /** Enumerated are the windows without either. */
  lemma UniformByBytes(events: seq<TraceEvent>)
    requires ValidEvents(events)
    ensures Uniform(events) <==> (forall a, b :: !AreMixed(events, a, b)) && forall r, w :: !IsCut(events, r, w)
  {
    UniformIffUnmixed(events);
    if HasMixedWrites(Writes(events)) {
      var a, b :| a in Writes(events) && b in Writes(events) && IsMixedPair(a, b);
      MixedAgrees(events, a, b);
    }
    if a, b :| AreMixed(events, a, b) { MixedAgrees(events, a, b); }
    if HasPartialReads(Reads(events), Writes(events)) {
      var r :| r in Reads(events) && IsPartial(r, Writes(events));
      CutReads(events, r);
    }
    if r, w :| IsCut(events, r, w) {
      CutReads(events, r);
      assert r in Reads(events) && IsPartial(r, Writes(events));
    }
  }

  lemma {:induction false} CountOfDistinct(s: seq<TraceEvent>, members: set<TraceEvent>)
    requires Distinct(s) && forall e :: e in s <==> e in members
    ensures |s| == |members|
  {
    if s == [] {
      assert members == {};
    } else {
      var n := |s| - 1;
      assert s == s[..n] + [s[n]];
      CountOfDistinct(s[..n], members - {s[n]});
    }
  }

  /** The stores with the range of w. */
  ghost function StoresLike(events: seq<TraceEvent>, w: TraceEvent): set<TraceEvent> {
    set v | v in events && Stores(v.kind) && v.address == w.address && v.size == w.size
  }

  /** Large windows have more than twelve accesses or more than six stores of one range. */
  lemma LargeByCount(events: seq<TraceEvent>)
    requires ValidEvents(events)
    ensures IsLarge(events)
       <==> |set e | e in events && IsAccess(e)| > 12
            || exists w :: w in events && Stores(w.kind) && |StoresLike(events, w)| > 6
  {
    forall e: TraceEvent ensures e.IsMemory() <==> IsAccess(e) ensures e.IsWrite() <==> Stores(e.kind) {
      KindsAgree(e);
    }
    CountOfDistinct(Select(events, (e: TraceEvent) => e.IsMemory()), set e | e in events && IsAccess(e));
    forall w | w in events && Stores(w.kind) ensures |WritesAt(events, LocationOf(w))| == |StoresLike(events, w)| {
      CountOfDistinct(WritesAt(events, LocationOf(w)), StoresLike(events, w));
    }
  }
}

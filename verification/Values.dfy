/** Comparing recorded values: whole reads by masking, cut reads piece by piece. */
module Values {
  import opened Events
  import opened ReadParts

  /** v >> 8k */
  function DropBytes(v: nat, k: nat): nat {
    if k == 0 then v else DropBytes(v / 256, k - 1)
  }

  /** v & ((1 << 8n) - 1) */
  function LowBytes(v: nat, n: nat): nat {
    if n == 0 then 0 else v % 256 + 256 * LowBytes(v / 256, n - 1)
  }

  lemma {:induction false} DropDrop(v: nat, j: nat, k: nat)
    ensures DropBytes(DropBytes(v, j), k) == DropBytes(v, j + k)
  {
    if j > 0 { DropDrop(v / 256, j - 1, k); }
  }

  /** Two values agree on m + n bytes exactly when they agree on the first m and on the next n. */
  lemma {:induction false} AgreeInTwoSteps(a: nat, b: nat, m: nat, n: nat)
    ensures LowBytes(a, m + n) == LowBytes(b, m + n) <==>
            LowBytes(a, m) == LowBytes(b, m) && LowBytes(DropBytes(a, m), n) == LowBytes(DropBytes(b, m), n)
  {
    if m > 0 { AgreeInTwoSteps(a / 256, b / 256, m - 1, n); }
  }

  /** The whole read shows the bytes the write stored there. */
  predicate WholeValueMatches(read: TraceEvent, w: TraceEvent)
    requires w.address <= read.address
  {
    LowBytes(read.value, read.size) == LowBytes(DropBytes(w.value, read.address - w.address), read.size)
  }

  predicate SliceValueMatches(p: ReadPart, w: TraceEvent)
    requires p.event.address <= p.address && w.address <= p.address
  {
    LowBytes(DropBytes(p.event.value, p.address - p.event.address), p.size)
    == LowBytes(DropBytes(w.value, p.address - w.address), p.size)
  }

  lemma {:induction false} TilesStayInside(parts: seq<ReadPart>, read: TraceEvent, k: nat)
    requires Tiles(parts, read) && k < |parts|
    ensures read.address <= parts[k].address
  {
    if k > 0 { TilesStayInside(parts, read, k - 1); }
  }

  lemma {:induction false} PrefixMatches(parts: seq<ReadPart>, read: TraceEvent, w: TraceEvent, k: nat)
    requires Tiles(parts, read) && k < |parts| && w.address <= read.address
    requires forall i :: 0 <= i < |parts| ==> read.address <= parts[i].address
    ensures (forall i :: 0 <= i <= k ==> SliceValueMatches(parts[i], w)) <==>
            LowBytes(read.value, parts[k].EndAddress() - read.address)
            == LowBytes(DropBytes(w.value, read.address - w.address), parts[k].EndAddress() - read.address)
  {
    var shifted := DropBytes(w.value, read.address - w.address);
    var done := parts[k].address - read.address;
    DropDrop(w.value, read.address - w.address, done);
    AgreeInTwoSteps(read.value, shifted, done, parts[k].size);
    if k > 0 {
      PrefixMatches(parts, read, w, k - 1);
      assert parts[k - 1].EndAddress() == parts[k].address;
    }
  }

  /** Cutting a read does not change the comparison with one write that covers it. */
  lemma SlicesMatchIffWholeMatches(parts: seq<ReadPart>, read: TraceEvent, w: TraceEvent)
    requires Tiles(parts, read) && Covers(w, read.address, read.EndAddress())
    ensures forall i :: 0 <= i < |parts| ==> read.address <= parts[i].address
    ensures (forall i :: 0 <= i < |parts| ==> SliceValueMatches(parts[i], w)) <==> WholeValueMatches(read, w)
  {
    forall k | 0 <= k < |parts| ensures read.address <= parts[k].address {
      TilesStayInside(parts, read, k);
    }
    PrefixMatches(parts, read, w, |parts| - 1);
  }

  /** A comparison is conclusive only for plain accesses of at most eight bytes with recorded values. */
  predicate Comparable(read: TraceEvent, w: TraceEvent) {
    && !read.kind.ATOMIC_RMW? && !w.kind.ATOMIC_RMW?
    && read.valueKnown && w.valueKnown && read.size <= 8 && w.size <= 8
  }

  predicate SourceExplains(read: TraceEvent, source: Option<TraceEvent>) {
    source.Some? && Comparable(read, source.value) && source.value.address <= read.address
    && WholeValueMatches(read, source.value)
  }

  method ValuesMatch(loads: seq<TraceEvent>, sources: seq<Option<TraceEvent>>) returns (ok: bool)
    requires |loads| == |sources|
    requires forall i :: 0 <= i < |loads| && sources[i].Some? ==> sources[i].value.address <= loads[i].address
    ensures ok <==> forall i :: 0 <= i < |loads| ==> SourceExplains(loads[i], sources[i])
  {
    for i := 0 to |loads|
      invariant forall j :: 0 <= j < i ==> SourceExplains(loads[j], sources[j])
    {
      var read, source := loads[i], sources[i];
      if read.kind.ATOMIC_RMW? || (source.Some? && source.value.kind.ATOMIC_RMW?) { return false; }
      if source.None? { return false; }
      var write := source.value;
      if !(read.valueKnown && write.valueKnown) { return false; }
      if read.size > 8 || write.size > 8 { return false; }
      if LowBytes(read.value, read.size) != LowBytes(DropBytes(write.value, read.address - write.address), read.size) {
        return false;
      }
    }
    return true;
  }

  method SliceValuesMatch(parts: seq<ReadPart>, sources: seq<Option<TraceEvent>>) returns (ok: bool)
    requires |parts| == |sources|
    requires forall i :: 0 <= i < |parts| ==> parts[i].event.address <= parts[i].address
    requires forall i :: 0 <= i < |parts| && sources[i].Some? ==> sources[i].value.address <= parts[i].address
    ensures ok <==> forall i :: 0 <= i < |parts| ==>
              && sources[i].Some? && Comparable(parts[i].event, sources[i].value)
              && SliceValueMatches(parts[i], sources[i].value)
  {
    for i := 0 to |parts|
      invariant forall j :: 0 <= j < i ==>
        && sources[j].Some? && Comparable(parts[j].event, sources[j].value)
        && SliceValueMatches(parts[j], sources[j].value)
    {
      var part, source := parts[i], sources[i];
      var read := part.event;
      if read.kind.ATOMIC_RMW? || source.None? { return false; }
      var write := source.value;
      if write.kind.ATOMIC_RMW? { return false; }
      if !(read.valueKnown && write.valueKnown) { return false; }
      if read.size > 8 || write.size > 8 { return false; }
      if !SliceValueMatches(part, write) { return false; }
    }
    return true;
  }
}

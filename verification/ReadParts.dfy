/** A read that overlaps writes of other widths is cut at their borders; every piece then takes its
    value from one write. */
module ReadParts {
  import opened Events

  datatype ReadPart = ReadPart(event: TraceEvent, address: nat, size: nat) {
    function EndAddress(): nat { address + size }
  }

  function Max(a: nat, b: nat): nat { if a < b then b else a }
  function Min(a: nat, b: nat): nat { if a < b then a else b }

  /** Byte addresses at which the read is cut. */
  function Cuts(read: TraceEvent, writes: seq<TraceEvent>): set<nat> {
    {read.address, read.EndAddress()}
    + (set w | w in writes && w.Overlaps(read) :: Max(read.address, w.address))
    + (set w | w in writes && w.Overlaps(read) :: Min(read.EndAddress(), w.EndAddress()))
  }

  /** A piece spans two neighbouring cuts. */
  ghost predicate IsPart(writes: seq<TraceEvent>, p: ReadPart) {
    var cuts := Cuts(p.event, writes);
    && p.size > 0 && p.address in cuts && p.EndAddress() in cuts
    && forall c :: c in cuts ==> !(p.address < c < p.EndAddress())
  }

  predicate Covers(write: TraceEvent, address: nat, end: nat) {
    write.address <= address && end <= write.EndAddress()
  }

  predicate Meets(write: TraceEvent, p: ReadPart) {
    write.address < p.EndAddress() && p.address < write.EndAddress()
  }

  lemma CutsLieInside(read: TraceEvent, writes: seq<TraceEvent>)
    ensures forall c :: c in Cuts(read, writes) ==> read.address <= c <= read.EndAddress()
  {
  }

  /** Every write treats a piece uniformly: it stores all of its bytes or none of them. */
  lemma PartsAreUniform(writes: seq<TraceEvent>, p: ReadPart, w: TraceEvent)
    requires IsPart(writes, p) && w in writes
    ensures Meets(w, p) ==> Covers(w, p.address, p.EndAddress())
  {
    var read := p.event;
    CutsLieInside(read, writes);
    if Meets(w, p) {
      assert w.Overlaps(read);
      assert Max(read.address, w.address) in Cuts(read, writes);
      assert Min(read.EndAddress(), w.EndAddress()) in Cuts(read, writes);
    }
  }

  /** A read that every overlapping write covers is not cut at all. */
  lemma CoveredReadHasOnePart(writes: seq<TraceEvent>, p: ReadPart)
    requires p.event.size > 0
    requires forall w :: w in writes && w.Overlaps(p.event) ==> Covers(w, p.event.address, p.event.EndAddress())
    ensures IsPart(writes, p) <==> p == ReadPart(p.event, p.event.address, p.event.size)
  {
    var read := p.event;
    assert Cuts(read, writes) == {read.address, read.EndAddress()};
  }

  predicate Ascending(s: seq<nat>) {
    forall i, j :: 0 <= i < j < |s| ==> s[i] < s[j]
  }

  method Sorted(values: set<nat>) returns (ordered: seq<nat>)
    ensures Ascending(ordered) && forall v :: v in ordered <==> v in values
  {
    ordered := [];
    var rest := values;
    while rest != {}
      invariant rest <= values && Ascending(ordered)
      invariant forall v :: v in ordered <==> v in values && v !in rest
      invariant forall u, v :: u in ordered && v in rest ==> u < v
      decreases rest
    {
      var least :| least in rest;
      var others := rest - {least};
      while others != {}
        invariant others <= rest && least in rest
        invariant forall v :: v in rest && v !in others ==> least <= v
        decreases others
      {
        var v :| v in others;
        others := others - {v};
        if v < least { least := v; }
      }
      assert forall i :: 0 <= i < |ordered| ==> ordered[i] in ordered;
      ordered := ordered + [least];
      rest := rest - {least};
    }
  }

  ghost predicate Tiles(parts: seq<ReadPart>, read: TraceEvent) {
    && |parts| > 0
    && parts[0].address == read.address
    && parts[|parts| - 1].EndAddress() == read.EndAddress()
    && (forall i :: 0 <= i < |parts| ==> parts[i].event == read && parts[i].size > 0)
    && (forall i :: 0 <= i < |parts| - 1 ==> parts[i].EndAddress() == parts[i + 1].address)
  }

  lemma NeighboursAreParts(cuts: seq<nat>, read: TraceEvent, writes: seq<TraceEvent>, p: ReadPart)
    requires Ascending(cuts) && p.event == read
    requires forall c :: c in cuts <==> c in Cuts(read, writes)
    ensures IsPart(writes, p) <==>
            exists i :: 0 <= i < |cuts| - 1 && cuts[i] == p.address && cuts[i + 1] == p.EndAddress()
  {
    if IsPart(writes, p) { PartIsBetweenCuts(cuts, read, writes, p); }
    if i :| 0 <= i < |cuts| - 1 && cuts[i] == p.address && cuts[i + 1] == p.EndAddress() {
      BetweenCutsIsPart(cuts, read, writes, p, i);
    }
  }

  lemma PartIsBetweenCuts(cuts: seq<nat>, read: TraceEvent, writes: seq<TraceEvent>, p: ReadPart)
    requires Ascending(cuts) && p.event == read && IsPart(writes, p)
    requires forall c :: c in cuts <==> c in Cuts(read, writes)
    ensures exists i :: 0 <= i < |cuts| - 1 && cuts[i] == p.address && cuts[i + 1] == p.EndAddress()
  {
    var i :| 0 <= i < |cuts| && cuts[i] == p.address;
    var j :| 0 <= j < |cuts| && cuts[j] == p.EndAddress();
    assert i < j;
    assert cuts[i + 1] in cuts;
  }

  lemma BetweenCutsIsPart(cuts: seq<nat>, read: TraceEvent, writes: seq<TraceEvent>, p: ReadPart, i: nat)
    requires Ascending(cuts) && p.event == read && i < |cuts| - 1
    requires forall c :: c in cuts <==> c in Cuts(read, writes)
    requires cuts[i] == p.address && cuts[i + 1] == p.EndAddress()
    ensures IsPart(writes, p)
  {
    assert cuts[i] in cuts && cuts[i + 1] in cuts;
    forall c | c in Cuts(read, writes) ensures !(p.address < c < p.EndAddress()) {
      var k :| 0 <= k < |cuts| && cuts[k] == c;
    }
  }

  lemma EndsOfOrder(s: seq<nat>, low: nat, high: nat)
    requires Ascending(s) && low in s && high in s && low < high
    requires forall v :: v in s ==> low <= v <= high
    ensures |s| >= 2 && s[0] == low && s[|s| - 1] == high
  {
    assert s[0] in s && s[|s| - 1] in s;
  }

  function PartsBetween(read: TraceEvent, cuts: seq<nat>): seq<ReadPart>
    requires Ascending(cuts) && |cuts| > 0
  {
    seq(|cuts| - 1, i requires 0 <= i < |cuts| - 1 => ReadPart(read, cuts[i], cuts[i + 1] - cuts[i]))
  }

  lemma PartsBetweenCuts(read: TraceEvent, writes: seq<TraceEvent>, cuts: seq<nat>)
    requires read.size > 0 && Ascending(cuts) && forall c :: c in cuts <==> c in Cuts(read, writes)
    ensures |cuts| > 0 && Tiles(PartsBetween(read, cuts), read)
  {
    CutsLieInside(read, writes);
    EndsOfOrder(cuts, read.address, read.EndAddress());
  }

  lemma PartsBetweenMembers(read: TraceEvent, cuts: seq<nat>, p: ReadPart)
    requires |cuts| > 0 && Ascending(cuts)
    ensures p in PartsBetween(read, cuts) <==> (p.event == read &&
            exists i :: 0 <= i < |cuts| - 1 && cuts[i] == p.address && cuts[i + 1] == p.EndAddress())
  {
    if i :| 0 <= i < |cuts| - 1 && cuts[i] == p.address && cuts[i + 1] == p.EndAddress() {
      if p.event == read { assert PartsBetween(read, cuts)[i] == p; }
    }
  }

  lemma PartsBetweenComplete(read: TraceEvent, writes: seq<TraceEvent>, cuts: seq<nat>, p: ReadPart)
    requires |cuts| > 0 && Ascending(cuts) && forall c :: c in cuts <==> c in Cuts(read, writes)
    ensures p in PartsBetween(read, cuts) <==> p.event == read && IsPart(writes, p)
  {
    PartsBetweenMembers(read, cuts, p);
    if p.event == read { NeighboursAreParts(cuts, read, writes, p); }
  }

  method SplitRead(read: TraceEvent, writes: seq<TraceEvent>) returns (parts: seq<ReadPart>)
    requires read.size > 0
    ensures Tiles(parts, read)
    ensures forall p: ReadPart :: p in parts <==> p.event == read && IsPart(writes, p)
  {
    var boundaries := {read.address, read.EndAddress()};
    for i := 0 to |writes|
      invariant boundaries == Cuts(read, writes[..i])
    {
      assert writes[..i + 1] == writes[..i] + [writes[i]];
      if writes[i].Overlaps(read) {
        boundaries := boundaries + {Max(read.address, writes[i].address)};
        boundaries := boundaries + {Min(read.EndAddress(), writes[i].EndAddress())};
      }
    }
    assert writes[..|writes|] == writes;
    var ordered := Sorted(boundaries);
    PartsBetweenCuts(read, writes, ordered);
    parts := PartsBetween(read, ordered);
    forall p: ReadPart ensures p in parts <==> p.event == read && IsPart(writes, p) {
      PartsBetweenComplete(read, writes, ordered, p);
    }
  }
}

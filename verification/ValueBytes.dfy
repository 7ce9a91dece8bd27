/** Recorded values compared byte by byte. */
module ValueBytes {
  import opened Events
  import opened ReadParts
  import opened Values

  /** Byte k of a value, the lowest first. */
  function ByteOf(v: nat, k: nat): nat {
    if k == 0 then v % 256 else ByteOf(v / 256, k - 1)
  }

  lemma {:induction false} ByteOfRest(v: nat, k: nat, j: nat)
    ensures ByteOf(DropBytes(v, k), j) == ByteOf(v, k + j)
  {
    if k > 0 { ByteOfRest(v / 256, k - 1, j); }
  }

  ghost predicate SameBytes(a: nat, b: nat, n: nat) {
    forall k: nat :: k < n ==> ByteOf(a, k) == ByteOf(b, k)
  }

  lemma SameBytesStep(a: nat, b: nat, n: nat)
    requires n > 0
    ensures SameBytes(a, b, n) <==> a % 256 == b % 256 && SameBytes(a / 256, b / 256, n - 1)
  {
    if SameBytes(a, b, n) {
      assert ByteOf(a, 0) == ByteOf(b, 0);
      forall k: nat | k < n - 1 ensures ByteOf(a / 256, k) == ByteOf(b / 256, k) {
        assert ByteOf(a, k + 1) == ByteOf(b, k + 1);
      }
    }
    if a % 256 == b % 256 && SameBytes(a / 256, b / 256, n - 1) {
      forall k: nat | k < n ensures ByteOf(a, k) == ByteOf(b, k) {
        if k > 0 { assert ByteOf(a / 256, k - 1) == ByteOf(b / 256, k - 1); }
      }
    }
  }

  lemma {:induction false} SameLowBytes(a: nat, b: nat, n: nat)
    ensures LowBytes(a, n) == LowBytes(b, n) <==> SameBytes(a, b, n)
  {
    if n > 0 {
      SameLowBytes(a / 256, b / 256, n - 1);
      SameBytesStep(a, b, n);
    }
  }

  /** Both values were recorded whole, and neither access is an atomic, which has two values. */
  predicate AreRecorded(read: TraceEvent, w: TraceEvent) {
    && read.kind != ATOMIC_RMW && w.kind != ATOMIC_RMW && read.valueKnown && w.valueKnown
    && read.size <= 8 && w.size <= 8
  }

  /** The byte of the event's value that belongs to an address. */
  function ByteAt(e: TraceEvent, address: nat): nat
    requires e.address <= address
  {
    ByteOf(e.value, address - e.address)
  }

  /** Every byte from an address on shows what the store put there. */
  ghost predicate ShowsBytes(read: TraceEvent, w: TraceEvent, from: nat, n: nat)
    requires read.address <= from && w.address <= from
  {
    forall address: nat :: from <= address < from + n ==> ByteAt(read, address) == ByteAt(w, address)
  }

  lemma SliceByBytes(p: ReadPart, w: TraceEvent)
    requires p.event.address <= p.address && w.address <= p.address
    ensures SliceValueMatches(p, w) <==> ShowsBytes(p.event, w, p.address, p.size)
  {
    var shown := DropBytes(p.event.value, p.address - p.event.address);
    var stored := DropBytes(w.value, p.address - w.address);
    SameLowBytes(shown, stored, p.size);
    forall k: nat
      ensures ByteOf(shown, k) == ByteAt(p.event, p.address + k) && ByteOf(stored, k) == ByteAt(w, p.address + k) {
      ByteOfRest(p.event.value, p.address - p.event.address, k);
      ByteOfRest(w.value, p.address - w.address, k);
    }
    if SameBytes(shown, stored, p.size) {
      forall address: nat | p.address <= address < p.address + p.size
        ensures ByteAt(p.event, address) == ByteAt(w, address) {
        assert ByteOf(shown, address - p.address) == ByteOf(stored, address - p.address);
      }
    }
  }

  /** A source explains a read exactly if both values are recorded and each byte read is the byte stored. */
  lemma ExplainedByBytes(read: TraceEvent, source: Option<TraceEvent>)
    ensures SourceExplains(read, source)
       <==> && source.Some? && AreRecorded(read, source.value) && source.value.address <= read.address
            && ShowsBytes(read, source.value, read.address, read.size)
  {
    if source.Some? && source.value.address <= read.address {
      SliceByBytes(ReadPart(read, read.address, read.size), source.value);
    }
  }
}

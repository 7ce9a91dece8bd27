/** What each kind of event does, one by one: the notions in which the meaning of the analyses is said. */
module Kinds {
  import opened Events

  predicate Loads(k: EventKind) {
    k == LOAD || k == ATOMIC_RMW || k == FUTEX_WAIT
  }

  predicate Stores(k: EventKind) {
    k == STORE || k == ATOMIC_RMW
  }

  predicate IsAccess(e: TraceEvent) {
    Loads(e.kind) || Stores(e.kind)
  }

  /** Orders every access against itself. */
  predicate IsFull(k: EventKind) {
    k == MFENCE || k == ATOMIC_RMW || k == FUTEX_WAIT
  }

  /** A boundary of kind k orders an access of kind a against itself. */
  predicate Admits(k: EventKind, a: EventKind) {
    (Loads(a) || Stores(a)) && (IsFull(k) || (k == LFENCE && Loads(a)) || (k == SFENCE && Stores(a)))
  }

  predicate Touches(e: TraceEvent, byte: int) {
    e.address <= byte < e.address + e.size
  }

  ghost predicate ShareByte(a: TraceEvent, b: TraceEvent) {
    exists byte: int :: Touches(a, byte) && Touches(b, byte)
  }

  predicate IsBefore(a: TraceEvent, b: TraceEvent) {
    a.thread == b.thread && a.sequence < b.sequence
  }

  /** The notions of the model say the same. */
  lemma KindsAgree(e: TraceEvent)
    ensures e.IsRead() <==> Loads(e.kind)
    ensures e.IsWrite() <==> Stores(e.kind)
    ensures e.IsMemory() <==> IsAccess(e)
    ensures e.kind.IsBoundary() <==> IsFull(e.kind) || e.kind == LFENCE || e.kind == SFENCE
  {
  }

  lemma OverlapIsShared(a: TraceEvent, b: TraceEvent)
    requires a.size > 0 && b.size > 0
    ensures a.Overlaps(b) <==> ShareByte(a, b)
  {
    if a.Overlaps(b) {
      var byte := if a.address < b.address then b.address else a.address;
      assert Touches(a, byte) && Touches(b, byte);
    }
  }
}

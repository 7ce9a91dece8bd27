/** Trace events as the window checker sees them. Inside a window an event is its own identity:
    the source names it by a string that is unique in the trace. */
module Events {

  datatype Option<+T> = None | Some(value: T)

  datatype EventKind =
    | LOAD
    | STORE
    | ATOMIC_RMW
    | LFENCE
    | SFENCE
    | MFENCE
    | FUTEX_WAIT
    | LIFECYCLE(code: nat)
  {
    predicate IsMemory() { LOAD? || STORE? || ATOMIC_RMW? || FUTEX_WAIT? }
    predicate IsRead() { LOAD? || ATOMIC_RMW? || FUTEX_WAIT? }
    predicate IsWrite() { STORE? || ATOMIC_RMW? }
    predicate IsBoundary() { ATOMIC_RMW? || FUTEX_WAIT? || LFENCE? || SFENCE? || MFENCE? }
  }

  datatype TraceEvent = TraceEvent(
    thread: nat, sequence: nat, ticket: nat, kind: EventKind,
    address: nat, size: nat, value: nat, valueKnown: bool)
  {
    function EndAddress(): nat { address + size }

    predicate Overlaps(other: TraceEvent) {
      address < other.EndAddress() && other.address < EndAddress()
    }

    predicate IsMemory() { kind.IsMemory() }
    predicate IsRead() { kind.IsRead() }
    predicate IsWrite() { kind.IsWrite() }

    /** Program order of one guest thread. */
    predicate Precedes(other: TraceEvent) {
      thread == other.thread && sequence < other.sequence
    }
  }

  type Edge = (TraceEvent, TraceEvent)

  /** What trace validation guarantees of the memory and fence events of a window. */
  ghost predicate ValidEvents(events: seq<TraceEvent>) {
    && (forall i, j :: 0 <= i < j < |events| ==> events[i] != events[j])
    && (forall a, b :: a in events && b in events && a.thread == b.thread && a.sequence == b.sequence ==> a == b)
    && (forall e :: e in events && e.IsMemory() ==> e.size > 0)
  }

  ghost predicate SortedThread(events: seq<TraceEvent>) {
    && (forall i, j :: 0 <= i < j < |events| ==> events[i].Precedes(events[j]))
  }
}

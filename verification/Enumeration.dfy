/** Products, permutations and coherence orders, as the explicit search lists them. */
module Enumeration {
  import opened Events
  import opened Executions

  // ----- Cartesian products -----

  function Prefixed<T>(x: T, tails: seq<seq<T>>): seq<seq<T>> {
    seq(|tails|, i requires 0 <= i < |tails| => [x] + tails[i])
  }

  function Combined<T>(heads: seq<T>, tails: seq<seq<T>>): seq<seq<T>> {
    if heads == [] then [] else Prefixed(heads[0], tails) + Combined(heads[1..], tails)
  }

  function Product<T>(choices: seq<seq<T>>): seq<seq<T>> {
    if choices == [] then [[]] else Combined(choices[0], Product(choices[1..]))
  }

  lemma PrefixedMembers<T>(x: T, tails: seq<seq<T>>, pick: seq<T>)
    ensures pick in Prefixed(x, tails) <==> pick != [] && pick[0] == x && pick[1..] in tails
  {
    var all := Prefixed(x, tails);
    if pick in all {
      var i :| 0 <= i < |all| && all[i] == pick;
      assert pick[1..] == tails[i];
    }
    if pick != [] && pick[0] == x && pick[1..] in tails {
      var i :| 0 <= i < |tails| && tails[i] == pick[1..];
      assert all[i] == pick;
    }
  }

  lemma {:induction false} CombinedMembers<T>(heads: seq<T>, tails: seq<seq<T>>, pick: seq<T>)
    ensures pick in Combined(heads, tails) <==> pick != [] && pick[0] in heads && pick[1..] in tails
  {
    if heads != [] {
      PrefixedMembers(heads[0], tails, pick);
      CombinedMembers(heads[1..], tails, pick);
      assert heads == [heads[0]] + heads[1..];
    }
  }

  /** A product lists exactly the ways of choosing one element from every list. */
  lemma {:induction false} ProductMembers<T>(choices: seq<seq<T>>, pick: seq<T>)
    ensures pick in Product(choices) <==>
            |pick| == |choices| && forall i :: 0 <= i < |choices| ==> pick[i] in choices[i]
  {
    if choices != [] {
      CombinedMembers(choices[0], Product(choices[1..]), pick);
      if pick != [] {
        ProductMembers(choices[1..], pick[1..]);
        if |pick| == |choices| && pick[0] in choices[0] {
          if forall i :: 0 <= i < |choices[1..]| ==> pick[1..][i] in choices[1..][i] {
            forall i | 0 <= i < |choices| ensures pick[i] in choices[i] {
              if i > 0 { assert pick[1..][i - 1] in choices[1..][i - 1]; }
            }
          }
          if forall i :: 0 <= i < |choices| ==> pick[i] in choices[i] {
            forall i | 0 <= i < |choices[1..]| ensures pick[1..][i] in choices[1..][i] {
              assert pick[i + 1] in choices[i + 1];
            }
          }
        }
      }
    }
  }

  // ----- Permutations -----

  function Without<T>(s: seq<T>, i: nat): seq<T>
    requires i < |s|
  {
    s[..i] + s[i + 1..]
  }

  function PermutationsFrom<T>(s: seq<T>, i: nat): seq<seq<T>>
    requires i <= |s|
    decreases |s|, |s| - i
  {
    if i == |s| then []
    else Prefixed(s[i], Permutations(Without(s, i))) + PermutationsFrom(s, i + 1)
  }

  function Permutations<T>(s: seq<T>): seq<seq<T>>
    decreases |s|, |s| + 1
  {
    if s == [] then [[]] else PermutationsFrom(s, 0)
  }

  ghost predicate SameMembers<T(!new)>(s: seq<T>, t: seq<T>) {
    forall v :: v in s <==> v in t
  }

  lemma {:induction false} PermutationsFromMembers(s: seq<TraceEvent>, i: nat, order: seq<TraceEvent>)
    requires Distinct(s) && i <= |s|
    ensures order in PermutationsFrom(s, i) <==>
            order != [] && Distinct(order) && SameMembers(order, s) && order[0] in s[i..]
    decreases |s|, |s| - i
  {
    if i < |s| {
      var rest := Without(s, i);
      PrefixedMembers(s[i], Permutations(rest), order);
      PermutationsFromMembers(s, i + 1, order);
      assert s[i..] == [s[i]] + s[i + 1..];
      assert s == s[..i] + [s[i]] + s[i + 1..];
      if order != [] && order[0] == s[i] {
        var tail := order[1..];
        assert order == [s[i]] + tail;
        PermutationsMembers(rest, tail);
        assert Distinct(rest) && forall v :: v in rest <==> v in s && v != s[i];
        if Distinct(tail) && SameMembers(tail, rest) { assert s[i] !in tail; }
        if Distinct(order) && SameMembers(order, s) {
          assert forall v :: v in tail ==> v != s[i];
        }
      }
    }
  }

  /** The permutations of distinct writes are exactly their duplicate-free rearrangements. */
  lemma {:induction false} PermutationsMembers(s: seq<TraceEvent>, order: seq<TraceEvent>)
    requires Distinct(s)
    ensures order in Permutations(s) <==> Distinct(order) && SameMembers(order, s)
    decreases |s|, |s| + 1
  {
    if s == [] {
      if order != [] { assert order[0] in order; }
    } else {
      PermutationsFromMembers(s, 0, order);
      assert s[0] in s;
      if order != [] { assert order[0] in order; }
    }
  }

  // ----- Coherence orders of one location -----

  function Position(order: seq<TraceEvent>, w: TraceEvent): (i: nat)
    requires w in order
    ensures i < |order| && order[i] == w
  {
    if order[0] == w then 0 else 1 + Position(order[1..], w)
  }

  /** No two writes of a thread swap places. */
  predicate RespectsThreads(writes: seq<TraceEvent>, order: seq<TraceEvent>)
    requires forall w :: w in writes ==> w in order
  {
    forall left, right :: left in writes && right in writes && left.Precedes(right) ==>
      Position(order, left) < Position(order, right)
  }

  function Filtered(writes: seq<TraceEvent>, orders: seq<seq<TraceEvent>>): seq<seq<TraceEvent>>
    requires forall o :: o in orders ==> SameMembers(o, writes)
  {
    if orders == [] then []
    else
      var rest := Filtered(writes, orders[1..]);
      assert orders[0] in orders && SameMembers(orders[0], writes);
      if RespectsThreads(writes, orders[0]) then [orders[0]] + rest else rest
  }

  lemma {:induction false} FilteredMembers(writes: seq<TraceEvent>, orders: seq<seq<TraceEvent>>, o: seq<TraceEvent>)
    requires forall o :: o in orders ==> SameMembers(o, writes)
    ensures o in Filtered(writes, orders) <==> o in orders && RespectsThreads(writes, o)
  {
    if orders != [] {
      FilteredMembers(writes, orders[1..], o);
      assert orders == [orders[0]] + orders[1..];
      assert orders[0] in orders && SameMembers(orders[0], writes);
    }
  }

  lemma PermutationsAreRearrangements(writes: seq<TraceEvent>)
    requires Distinct(writes)
    ensures forall o :: o in Permutations(writes) ==> SameMembers(o, writes)
  {
    forall o ensures o in Permutations(writes) ==> SameMembers(o, writes) { PermutationsMembers(writes, o); }
  }

  function ValidCoherenceOrders(writes: seq<TraceEvent>): seq<seq<TraceEvent>>
    requires Distinct(writes)
  {
    PermutationsAreRearrangements(writes);
    Filtered(writes, Permutations(writes))
  }

  /** The valid coherence orders are exactly the linear extensions of per-thread order. */
  lemma ValidOrdersAreLinearExtensions(writes: seq<TraceEvent>, order: seq<TraceEvent>)
    requires Distinct(writes)
    ensures order in ValidCoherenceOrders(writes) <==>
            && Distinct(order) && SameMembers(order, writes)
            && forall i, j :: 0 <= i < j < |order| ==> !order[j].Precedes(order[i])
  {
    PermutationsAreRearrangements(writes);
    PermutationsMembers(writes, order);
    FilteredMembers(writes, Permutations(writes), order);
    if Distinct(order) && SameMembers(order, writes) {
      if RespectsThreads(writes, order) {
        forall i, j | 0 <= i < j < |order| ensures !order[j].Precedes(order[i]) {
          assert order[i] in writes && order[j] in writes;
        }
      }
      if forall i, j :: 0 <= i < j < |order| ==> !order[j].Precedes(order[i]) {
        forall left, right | left in writes && right in writes && left.Precedes(right)
          ensures Position(order, left) < Position(order, right) {
          var i, j := Position(order, left), Position(order, right);
          assert order[i] == left && order[j] == right;
        }
      }
    }
  }
}

/** Call sites as control-flow recovery reports them. */
module Calls {
  import opened Events
  import opened Graphs
  import opened Reachability

  /** A code address, in the module under analysis or in another one. */
  datatype Target = Target(isLocal: bool, pc: nat)

  /** A call site with all its known targets; isCreate if it calls pthread_create. */
  datatype CallSite = CallSite(caller: nat, pc: nat, block: Option<nat>, targets: seq<Target>, isCreate: bool)
  {
    /** The callee, if it is the only known target and belongs to the module. */
    function Callee(): Option<nat> {
      if |targets| == 1 && targets[0].isLocal then Some(targets[0].pc) else None
    }

    predicate Names(f: nat) { Target(true, f) in targets }
  }

  /** Calls with one target, which is all that the analyses of phases follow. */
  function CallArcs(sites: seq<CallSite>): Arcs {
    set s | s in sites && s.Callee().Some? :: (s.caller, s.Callee().value)
  }

  /** All known calls inside the module. */
  function KnownArcs(sites: seq<CallSite>): Arcs {
    set s, t | s in sites && t in s.targets && t.isLocal :: (s.caller, t.pc)
  }

  lemma KnownArc(sites: seq<CallSite>, a: nat, b: nat)
    ensures (a, b) in KnownArcs(sites) <==> exists s :: s in sites && s.caller == a && s.Names(b)
  {
    if (a, b) in KnownArcs(sites) {
      var s, t :| s in sites && t in s.targets && t.isLocal && (s.caller, t.pc) == (a, b);
      assert t == Target(true, b) && s.Names(b);
    }
    if s :| s in sites && s.caller == a && s.Names(b) {
      assert Target(true, b).isLocal;
    }
  }

  lemma NamedCallee(sites: seq<CallSite>, c: CallSite, w: nat)
    requires c in sites && c.Names(w)
    ensures c.Callee().Some? ==> (c.caller, w) in CallArcs(sites)
  {
    if c.Callee().Some? { assert c.Callee().value == w; }
  }

  /** Known calls one after the other, from start to f. */
  ghost predicate IsKnownChain(sites: seq<CallSite>, start: nat, chain: seq<CallSite>, f: nat) {
    && chain != [] && chain[0].caller == start && (forall s :: s in chain ==> s in sites)
    && (forall i :: 0 <= i < |chain| - 1 ==> chain[i].Names(chain[i + 1].caller)) && chain[|chain| - 1].Names(f)
  }

  lemma {:induction false} ChainLeads(sites: seq<CallSite>, start: nat, chain: seq<CallSite>, f: nat)
    requires IsKnownChain(sites, start, chain, f)
    ensures Leads(KnownArcs(sites), start, chain[|chain| - 1].caller)
    decreases |chain|
  {
    var n := |chain| - 1;
    if n > 0 {
      assert chain[n - 1] in chain && chain[n - 1].Names(chain[n].caller);
      PrefixChain(sites, start, chain, f);
      ChainLeads(sites, start, chain[..n], chain[n].caller);
      KnownArc(sites, chain[n - 1].caller, chain[n].caller);
      LeadsStep(KnownArcs(sites), start, chain[n - 1].caller, chain[n].caller);
    }
  }

  lemma PrefixChain(sites: seq<CallSite>, start: nat, chain: seq<CallSite>, f: nat)
    requires IsKnownChain(sites, start, chain, f) && |chain| > 1
    ensures IsKnownChain(sites, start, chain[..|chain| - 1], chain[|chain| - 1].caller)
  {
  }

  lemma {:induction false} ChainAlong(sites: seq<CallSite>, p: seq<nat>) returns (chain: seq<CallSite>)
    requires IsWalk(KnownArcs(sites), p) && |p| > 1
    ensures IsKnownChain(sites, p[0], chain, p[|p| - 1])
    decreases |p|
  {
    var n := |p| - 1;
    assert (p[n - 1], p[n]) in KnownArcs(sites);
    KnownArc(sites, p[n - 1], p[n]);
    var s :| s in sites && s.caller == p[n - 1] && s.Names(p[n]);
    if n == 1 {
      chain := [s];
    } else {
      forall i | 0 <= i < n - 1 ensures (p[..n][i], p[..n][i + 1]) in KnownArcs(sites) {
        assert (p[i], p[i + 1]) in KnownArcs(sites);
      }
      var before := ChainAlong(sites, p[..n]);
      chain := before + [s];
    }
  }

  /** The cycle that begins one call earlier. */
  lemma RotateLoop(sites: seq<CallSite>, chain: seq<CallSite>, t: nat, i: nat)
    requires IsKnownChain(sites, t, chain, t) && 0 < i < |chain|
    ensures IsKnownChain(sites, chain[i].caller, chain[i..] + chain[..i], chain[i].caller)
    ensures (chain[i..] + chain[..i])[|chain| - 1] == chain[i - 1]
    ensures forall c :: c in chain[i..] + chain[..i] <==> c in chain
  {
    var turned := chain[i..] + chain[..i];
    assert chain == chain[..i] + chain[i..];
    forall k | 0 <= k < |turned| - 1 ensures turned[k].Names(turned[k + 1].caller) {
      if k < |chain| - i - 1 {
        assert turned[k] == chain[i + k] && turned[k + 1] == chain[i + k + 1];
      } else if k >= |chain| - i {
        var m := k - (|chain| - i);
        assert turned[k] == chain[m] && turned[k + 1] == chain[m + 1];
      }
    }
  }
}

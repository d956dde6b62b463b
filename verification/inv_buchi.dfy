/**
 * The inverse view of a simple Büchi automaton (`inv_buchi`): the base
 * automaton together with its reversed transition table and the set of
 * states that touch an edge, both computed once at construction.
 */
module InvBuchi {
  import opened Wrappers
  import opened Graphs
  import opened Buchi

  /** Every (source, target) pair of a transition table. */
  function Edges(g: Graph<nat>): set<(nat, nat)>
  {
    set q, t | q in g && t in g[q] :: (q, t)
  }

  /** The states that occur as the target of some edge. */
  function Targets(g: Graph<nat>): set<nat>
  {
    set q, t | q in g && t in g[q] :: t
  }

  /** The reversed edge relation: each target mapped to its predecessors. */
  function Inverse(g: Graph<nat>): (inv: Graph<nat>)
    ensures forall q, t :: t in inv && q in inv[t] <==> q in g && t in g[q]
    ensures forall t :: t in inv ==> inv[t] != {}
  {
    var inv := map t | t in Targets(g) :: set q | q in g && t in g[q];
    assert forall t :: t in inv ==> exists q :: q in g && t in g[q];
    inv
  }

  /** A table with the characterising properties of the reversed relation is that relation. */
  lemma InverseUnique(g: Graph<nat>, inv: Graph<nat>)
    requires forall q, t :: t in inv && q in inv[t] <==> q in g && t in g[q]
    requires forall t :: t in inv ==> inv[t] != {}
    ensures inv == Inverse(g)
  {
    var r := Inverse(g);
    forall t | t in inv ensures t in r {
      var q :| q in inv[t];
      assert q in g && t in g[q];
      assert t in Targets(g);
    }
    forall t | t in r ensures t in inv {
      var q :| q in r[t];
    }
    assert inv.Keys == r.Keys;
    forall t | t in inv ensures inv[t] == r[t] {
    }
  }

  /** Swapping the components of every pair. */
  function Swap(e: set<(nat, nat)>): set<(nat, nat)>
  {
    set p | p in e :: (p.1, p.0)
  }

  lemma {:induction false} SwapCard(e: set<(nat, nat)>)
    ensures |Swap(e)| == |e|
    decreases |e|
  {
    if e != {} {
      var p :| p in e;
      var rest := e - {p};
      SwapCard(rest);
      assert Swap(e) == Swap(rest) + {(p.1, p.0)};
      assert (p.1, p.0) !in Swap(rest);
    }
  }

  /** The inverse table has exactly as many (source, target) pairs as the original. */
  lemma InverseSameEdgeCount(g: Graph<nat>)
    ensures |Edges(Inverse(g))| == |Edges(g)|
  {
    var inv := Inverse(g);
    assert Edges(inv) == Swap(Edges(g)) by {
      forall p | p in Edges(inv) ensures p in Swap(Edges(g)) {
        assert (p.1, p.0) in Edges(g);
      }
      forall p | p in Swap(Edges(g)) ensures p in Edges(inv) {
        var e :| e in Edges(g) && p == (e.1, e.0);
      }
    }
    SwapCard(Edges(g));
  }

  /** `inverse_trans_table`: nested loops inserting every source into the entry of
    * each of its targets. */
  method InverseTransTable(g: Graph<nat>) returns (inv: Graph<nat>)
    ensures inv == Inverse(g)
  {
    inv := map[];
    var sources := g.Keys;
    while sources != {}
      invariant sources <= g.Keys
      invariant forall t :: t in inv ==> inv[t] != {}
      invariant forall q, t :: t in inv && q in inv[t] <==> q in g && q !in sources && t in g[q]
      decreases sources
    {
      var q :| q in sources;
      var succ := g[q];
      while succ != {}
        invariant succ <= g[q]
        invariant forall t :: t in inv ==> inv[t] != {}
        invariant forall p, t :: t in inv && p in inv[t] <==>
          (p in g && p !in sources && t in g[p]) || (p == q && t in g[q] && t !in succ)
        decreases succ
      {
        var t :| t in succ;
        inv := inv[t := (if t in inv then inv[t] else {}) + {q}];
        succ := succ - {t};
      }
      sources := sources - {q};
    }
    InverseUnique(g, inv);
  }

  /** The states occurring as the source or the target of some edge. */
  function EdgeStates(g: Graph<nat>): (s: set<nat>)
    ensures forall x :: x in s <==> (x in g && g[x] != {}) || x in Targets(g)
  {
    var s := (set q, t | q in g && t in g[q] :: q) + Targets(g);
    assert forall x :: x in g && g[x] != {} ==> exists t :: t in g[x];
    s
  }

  /** `collect_states`: both ends of every edge inserted into one container. */
  method CollectStates(g: Graph<nat>) returns (states: set<nat>)
    ensures states == EdgeStates(g)
  {
    states := {};
    var sources := g.Keys;
    while sources != {}
      invariant sources <= g.Keys
      invariant forall x :: x in states <==>
        exists q, t :: q in g && q !in sources && t in g[q] && (x == q || x == t)
      decreases sources
    {
      var q :| q in sources;
      var succ := g[q];
      while succ != {}
        invariant succ <= g[q]
        invariant forall x :: x in states <==>
          (exists p, t :: p in g && p !in sources && t in g[p] && (x == p || x == t))
          || (exists t :: t in g[q] && t !in succ && (x == q || x == t))
        decreases succ
      {
        var t :| t in succ;
        states := states + {q, t};
        succ := succ - {t};
      }
      sources := sources - {q};
    }
    assert forall x :: x in states <==> x in EdgeStates(g) by {
      forall x ensures x in states <==> x in EdgeStates(g) {
        if x in Targets(g) {
          var q, t :| q in g && t in g[q] && x == t;
        }
        if x in g && g[x] != {} {
          var t :| t in g[x];
        }
      }
    }
  }

  /** The inverse view: the base automaton, its reversed table and its edge states. */
  datatype InvAutomaton = InvAutomaton(base: Automaton, invTrans: Graph<nat>, states: set<nat>)
  {
    predicate Valid()
    {
      && base.Valid()
      && !base.IsGeneralized()
      && invTrans == Inverse(base.trans)
      && states == EdgeStates(base.trans)
    }
  }

  /** The constructor `inv_buchi(buchi&&)`: it accepts only a simple automaton (K == 1). */
  method MakeInv(a: Automaton) returns (ib: InvAutomaton)
    requires a.Valid() && !a.IsGeneralized()
    ensures ib.Valid() && ib.base == a
  {
    var inv := InverseTransTable(a.trans);
    var states := CollectStates(a.trans);
    ib := InvAutomaton(a, inv, states);
  }

  /** `acceptable_inv_transitions(state)`: the predecessors of `s`, or none when
    * no edge enters `s`. */
  function AcceptableInvTransitions(ib: InvAutomaton, s: nat): (r: Option<set<nat>>)
    requires ib.Valid()
    ensures r.None? <==> forall q :: q in ib.base.trans ==> s !in ib.base.trans[q]
    ensures r.Some? ==> r.value != {}
    ensures r.Some? ==> forall q :: q in r.value <==> q in ib.base.trans && s in ib.base.trans[q]
  {
    if s in ib.invTrans then Some(ib.invTrans[s]) else None
  }
}

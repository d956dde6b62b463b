/**
 * The Büchi automaton value: K acceptance sets F_0 .. F_(K-1) and a
 * transition table mapping each source state to its successors. The
 * initial state is always 0. K == 1 is a simple Büchi automaton (NBA),
 * K > 1 a generalized one (NGA).
 */
module Buchi {
  import opened Wrappers
  import opened Graphs
  import SortedSets

  /** `buchi::INITIAL_STATE`: every automaton starts in state 0. */
  const InitialState: nat := 0

  datatype Automaton = Automaton(finals: seq<set<nat>>, trans: Graph<nat>)
  {
    /** The checks the constructor asserts: at least one acceptance set, none of
      * them empty, a non-empty transition table, and every listed source state
      * with at least one successor. */
    predicate Valid()
    {
      && |finals| > 0
      && (forall i :: 0 <= i < |finals| ==> finals[i] != {})
      && |trans| > 0
      && (forall q :: q in trans ==> trans[q] != {})
    }

    /** `get_final_num_sets`: K. */
    function NumFinalSets(): nat
    {
      |finals|
    }

    /** `is_generalized`: more than one acceptance set. */
    predicate IsGeneralized()
    {
      |finals| > 1
    }

    /** Membership in acceptance set `i`; an index past the last set is simply not accepting. */
    predicate InFinalSet(s: nat, i: nat)
    {
      i < |finals| && s in finals[i]
    }

    /** Membership in some acceptance set. */
    predicate Accepting(s: nat)
    {
      exists i :: 0 <= i < |finals| && s in finals[i]
    }

    /** Every state the automaton mentions as a source, a target or the initial state. */
    function States(): (r: set<nat>)
      ensures InitialState in r && trans.Keys <= r
      ensures forall q, t :: q in trans && t in trans[q] ==> t in r
    {
      {InitialState} + trans.Keys + (set q, t | q in trans && t in trans[q] :: t)
    }

    /** There is an accepting lasso through `s`: a non-trivial cycle through `s`,
      * and for every acceptance set a member that `s` reaches and that reaches `s`
      * back, so that the cycle can be stretched to visit every set. */
    ghost predicate AcceptingCycleAt(s: nat)
    {
      && ReachesPlus(trans, s, s)
      && forall i :: 0 <= i < |finals| ==>
           exists f :: f in finals[i] && Reaches(trans, s, f) && Reaches(trans, f, s)
    }

    /** The accepted language is non-empty: some accepting cycle is reachable from
      * the initial state (the lasso that every emptiness check looks for). */
    ghost predicate NonEmpty()
    {
      exists s :: Reaches(trans, InitialState, s) && AcceptingCycleAt(s)
    }
  }

  /** The checked constructor `buchi::buchi(finals, trans)`: `None` stands for a failed
    * assertion, so no partially valid automaton is ever produced. */
  function Construct(finals: seq<set<nat>>, trans: Graph<nat>): (r: Option<Automaton>)
    ensures r.Some? <==>
      && |finals| > 0
      && (forall i :: 0 <= i < |finals| ==> finals[i] != {})
      && |trans| > 0
      && (forall q :: q in trans ==> trans[q] != {})
    ensures r.Some? ==> r.value.finals == finals && r.value.trans == trans && r.value.Valid()
  {
    var a := Automaton(finals, trans);
    if a.Valid() then Some(a) else None
  }

  /** `is_final(state, set_num)`: with an index, membership in that set (false for an
    * index past the last set); without one, a search over all sets. */
  method IsFinal(a: Automaton, s: nat, setNum: Option<nat>) returns (b: bool)
    ensures setNum.Some? ==> (b <==> setNum.value < |a.finals| && s in a.finals[setNum.value])
    ensures setNum.None? ==> (b <==> exists i :: 0 <= i < |a.finals| && s in a.finals[i])
  {
    if setNum.Some? {
      return if setNum.value < |a.finals| then s in a.finals[setNum.value] else false;
    }
    for i := 0 to |a.finals|
      invariant forall j :: 0 <= j < i ==> s !in a.finals[j]
    {
      if s in a.finals[i] {
        return true;
      }
    }
    return false;
  }

  /** `indexes_final_sets(state)`: the indices of the acceptance sets holding `s`
    * (its "colour"), ascending, each once. */
  method IndexesFinalSets(a: Automaton, s: nat) returns (res: seq<nat>)
    ensures |res| <= |a.finals|
    ensures SortedSets.Increasing(res)
    ensures forall i: nat :: i in res <==> i < |a.finals| && s in a.finals[i]
    ensures |res| > 0 <==> a.Accepting(s)
  {
    res := [];
    for i := 0 to |a.finals|
      invariant |res| <= i
      invariant SortedSets.Increasing(res)
      invariant forall k :: 0 <= k < |res| ==> res[k] < i
      invariant forall j: nat :: j in res <==> j < i && s in a.finals[j]
    {
      if s in a.finals[i] {
        res := res + [i];
      }
    }
    if |res| > 0 {
      assert res[0] < |a.finals| && s in a.finals[res[0]];
    }
  }

  /** For a simple automaton a lasso is an accepting state on a reachable cycle. */
  lemma {:induction false} SimpleNonEmpty(a: Automaton, f: nat)
    requires |a.finals| == 1 && f in a.finals[0]
    requires Reaches(a.trans, InitialState, f) && ReachesPlus(a.trans, f, f)
    ensures a.NonEmpty()
  {
    ReachesRefl(a.trans, f);
    assert a.AcceptingCycleAt(f);
  }

  /** Conversely, a lasso of a simple automaton yields an accepting state that is
    * reachable and lies on a cycle. */
  lemma {:induction false} SimpleNonEmptyWitness(a: Automaton) returns (f: nat)
    requires |a.finals| == 1 && a.NonEmpty()
    ensures f in a.finals[0]
    ensures Reaches(a.trans, InitialState, f) && ReachesPlus(a.trans, f, f)
  {
    var s :| Reaches(a.trans, InitialState, s) && a.AcceptingCycleAt(s);
    f :| f in a.finals[0] && Reaches(a.trans, s, f) && Reaches(a.trans, f, s);
    ReachesTrans(a.trans, InitialState, s, f);
    ReachesThenPlus(a.trans, f, s, s);
    PlusTrans(a.trans, f, s, f);
  }
}

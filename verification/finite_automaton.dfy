/**
 * The common part of the 1-based finite automata (`automates::finite_automaton`): a
 * number of states, a number of alphabet symbols and a start state, fixed at
 * construction. States are numbered 1..states; 0 is not a state and serves as the
 * "empty" marker.
 */
module FiniteAutomaton {
  import opened Wrappers

  /** The base-class fields. Datatype values cannot be changed after construction, as
    * the source's const fields and deleted assignment operator intend. */
  datatype Base = Base(states: nat, alphabet: nat, start: nat)
  {
    /** The states are 1..states. */
    predicate IsState(q: nat)
    {
      1 <= q <= states
    }

    /** What the constructor checks. */
    predicate Valid()
    {
      states != 0 && IsState(start)
    }

    function GetStatesNum(): nat { states }

    function GetAlphabetNum(): nat { alphabet }

    function GetInitialState(): nat { start }
  }

  /** The constructor: it aborts (None) without states or with a start state outside
    * 1..states. */
  function Construct(states: nat, alphabet: nat, start: nat): (r: Option<Base>)
    ensures r.Some? <==> states > 0 && 0 < start <= states
    ensures r.Some? ==> r.value.Valid() && !r.value.IsState(0)
    ensures r.Some? ==>
      r.value.GetStatesNum() == states && r.value.GetAlphabetNum() == alphabet && r.value.GetInitialState() == start
  {
    if states != 0 && 1 <= start <= states then Some(Base(states, alphabet, start)) else None
  }
}

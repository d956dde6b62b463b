/**
 * The 0-based deterministic automaton (`dfa::automaton`) the product operations work
 * on: states 0..states-1, a start state, a list of final states and a row-major
 * transition table with one row per state. The alphabet size is the table size
 * divided by the number of states.
 */
module DfaAutomaton {
  import opened Wrappers
  import opened Uint32
  import TokenStream

  datatype Automaton = Automaton(states: nat, start: nat, finals: seq<nat>, table: seq<nat>)
  {
    /** What the constructor checks. Final states are not checked. */
    predicate Valid()
    {
      start < states && |table| % states == 0 && forall t :: t in table ==> t < states
    }

    /** The row width `action` uses: the table size divided by the number of states,
      * without truncation. */
    function Alphabet(): nat
      requires states != 0
    {
      |table| / states
    }
  }

  /** The constructor: it aborts (None) when the start state is not a state, when the
    * table is not a whole number of rows, or when a table entry is not a state. */
  function Construct(states: nat, start: nat, finals: seq<nat>, table: seq<nat>): (r: Option<Automaton>)
    ensures r.Some? <==> start < states && |table| % states == 0 && forall t :: t in table ==> t < states
    ensures r.Some? ==> r.value.Valid() && r.value.Alphabet() * states == |table|
    ensures r.Some? ==> r.value == Automaton(states, start, finals, table)
  {
    if start < states && |table| % states == 0 && (forall t :: t in table ==> t < states) then
      DivExact(|table|, states);
      Some(Automaton(states, start, finals, table))
    else
      None
  }

  /** `action(curr, sym)`: the entry at (curr * alphabet + sym); an index past the table
    * is rejected by the bounds-checked lookup (None). */
  function Action(d: Automaton, curr: nat, sym: nat): Option<nat>
    requires d.Valid()
  {
    var index := curr * d.Alphabet() + sym;
    if index < |d.table| then Some(d.table[index]) else None
  }

  /** For a state and a symbol of the alphabet, `action` reads that state's row at that
    * symbol's column, and the result is a state. */
  lemma ActionInRange(d: Automaton, curr: nat, sym: nat)
    requires d.Valid() && curr < d.states && sym < d.Alphabet()
    ensures curr * d.Alphabet() + sym < |d.table|
    ensures Action(d, curr, sym) == Some(d.table[curr * d.Alphabet() + sym])
    ensures Action(d, curr, sym).value < d.states
  {
    DivExact(|d.table|, d.states);
    RowBound(curr, sym, d.states, d.Alphabet());
    assert d.table[curr * d.Alphabet() + sym] in d.table;
  }

  /** `action` reads the entry at the computed position when it is in the table. */
  lemma ActionAt(d: Automaton, curr: nat, sym: nat, j: nat)
    requires d.Valid() && j == curr * d.Alphabet() + sym && j < |d.table|
    ensures Action(d, curr, sym) == Some(d.table[j])
  {
  }

  /** There is no row past the last state: `action` fails for any symbol. */
  lemma ActionPastLastRow(d: Automaton, curr: nat, sym: nat)
    requires d.Valid() && d.states <= curr
    ensures Action(d, curr, sym) == None
  {
    DivExact(|d.table|, d.states);
    assert curr * d.Alphabet() == d.states * d.Alphabet() + (curr - d.states) * d.Alphabet();
  }

  /** A symbol one past the alphabet is not rejected: it reads the first column of the
    * next row. */
  lemma ActionSymbolOverflow(d: Automaton, curr: nat)
    requires d.Valid() && curr + 1 < d.states
    ensures Action(d, curr, d.Alphabet()) == Action(d, curr + 1, 0)
  {
    assert (curr + 1) * d.Alphabet() == curr * d.Alphabet() + d.Alphabet();
  }

  /** `get_alphabet_num`: the table size cast to `uint32_t`, divided by the number of
    * states. */
  function GetAlphabetNum(d: Automaton): (r: nat)
    requires d.states != 0
    ensures r <= d.Alphabet()
    ensures |d.table| < U32 ==> r == d.Alphabet()
  {
    DivMono(|d.table| % U32, |d.table|, d.states);
    (|d.table| % U32) / d.states
  }

  /** `is_final(st)`: whether `st` occurs in the list of final states. */
  function IsFinal(d: Automaton, st: nat): (r: bool)
    ensures r <==> exists i :: 0 <= i < |d.finals| && d.finals[i] == st
  {
    st in d.finals
  }

  /** The state reached from `q` by reading the symbols of `w` one by one, if every step
    * succeeds. */
  function Run(d: Automaton, q: nat, w: seq<nat>): Option<nat>
    requires d.Valid()
    decreases |w|
  {
    if w == [] then Some(q)
    else
      match Action(d, q, w[0])
      case None => None
      case Some(q') => Run(d, q', w[1..])
  }

  /** Every symbol of `w` is below `k`. */
  predicate Word(w: seq<nat>, k: nat)
  {
    forall i :: 0 <= i < |w| ==> w[i] < k
  }

  /** `d` accepts `w`: the run from the start state ends in a final state. */
  predicate Accepts(d: Automaton, w: seq<nat>)
    requires d.Valid()
  {
    var e := Run(d, d.start, w);
    e.Some? && IsFinal(d, e.value)
  }

  /** A run over symbols of the alphabet never fails and ends in a state. */
  lemma {:induction false} RunTotal(d: Automaton, q: nat, w: seq<nat>)
    requires d.Valid() && q < d.states && Word(w, d.Alphabet())
    ensures Run(d, q, w).Some? && Run(d, q, w).value < d.states
    decreases |w|
  {
    if w != [] {
      ActionInRange(d, q, w[0]);
      RunTotal(d, Action(d, q, w[0]).value, w[1..]);
    }
  }

  /** What `construct_read` makes of the values from position `at` on: the number of
    * states, the start state, the number of final states `fs`, the alphabet size, then
    * `fs` final states and (alphabet * states, in 32-bit arithmetic) table entries; the
    * automaton and the position after them, or None when the values run out or the
    * constructor aborts. */
  function Decode(ts: seq<nat>, at: nat): Option<(Automaton, nat)>
    requires at <= |ts|
  {
    if |ts| < at + 4 then None
    else
      var count := Mul32(ts[at + 3], ts[at]);
      var next := at + 4 + ts[at + 2] + count;
      if |ts| < next then None
      else
        match Construct(ts[at], ts[at + 1], ts[at + 4..at + 4 + ts[at + 2]], ts[at + 4 + ts[at + 2]..next])
        case None => None
        case Some(d) => Some((d, next))
  }

  /** The values that describe `d` in the format `construct_read` reads. */
  function Encode(d: Automaton): seq<nat>
    requires d.states != 0
  {
    [d.states, d.start, |d.finals|, d.Alphabet()] + d.finals + d.table
  }

  /** A successful read yields a constructed automaton and consumes exactly its four
    * header values, its final states and its table. */
  lemma DecodeConsumes(ts: seq<nat>, at: nat)
    requires at <= |ts| && Decode(ts, at).Some?
    ensures Decode(ts, at).value.0.Valid()
    ensures Decode(ts, at).value.1 == at + 4 + |Decode(ts, at).value.0.finals| + |Decode(ts, at).value.0.table|
  {
  }

  /** Reading back what `Encode` writes gives the automaton again, whatever precedes or
    * follows it, as long as its sizes fit in 32 bits. */
  lemma DecodeEncode(d: Automaton, before: seq<nat>, after: seq<nat>)
    requires d.Valid() && |d.finals| < U32 && |d.table| < U32
    ensures Decode(before + Encode(d) + after, |before|) == Some((d, |before| + |Encode(d)|))
  {
    var ts := before + Encode(d) + after;
    var at := |before|;
    var states, k := d.states, d.Alphabet();
    DivExact(|d.table|, states);
    assert ts[at..at + |Encode(d)|] == Encode(d);
    assert ts[at] == states && ts[at + 1] == d.start && ts[at + 2] == |d.finals| && ts[at + 3] == k;
    assert Mul32(k, states) == |d.table|;
    assert ts[at + 4..at + 4 + |d.finals|] == d.finals;
    assert ts[at + 4 + |d.finals|..at + |Encode(d)|] == d.table;
  }

  /** `construct_read`: read the header, then the final states and the table entries
    * with counted loops, and construct the automaton; the position after the values
    * read is returned too, so that several automata can be read one after another. */
  method ConstructRead(ts: seq<nat>, at: nat) returns (r: Option<(Automaton, nat)>)
    requires at <= |ts|
    ensures r == Decode(ts, at)
  {
    if |ts| < at + 4 {
      return None;
    }
    var states, start := ts[at], ts[at + 1];
    var fsNum, alphNum := ts[at + 2], ts[at + 3];
    var finals := TokenStream.ReadValues(ts, at + 4, fsNum);
    if finals.None? {
      return None;
    }
    var count := Mul32(alphNum, states);
    var table := TokenStream.ReadValues(ts, at + 4 + fsNum, count);
    if table.None? {
      return None;
    }
    var d := Construct(states, start, finals.value, table.value);
    if d.None? {
      return None;
    }
    return Some((d.value, at + 4 + fsNum + count));
  }
}

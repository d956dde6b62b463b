/**
 * The 1-based deterministic automaton (`automates::dfa`): the base fields, a list of
 * final states and a row-major transition table with one row per state 1..states
 * and one column per symbol 1..alphabet. The alphabet size is not given but derived
 * from the table size.
 */
module OneBasedDfa {
  import opened Wrappers
  import opened Uint32
  import opened FiniteAutomaton
  import TokenStream

  datatype Dfa = Dfa(base: Base, finals: seq<nat>, table: seq<nat>)
  {
    /** What the constructor checks, in the terms it establishes: the table has one
      * entry per state and symbol, and finals and table entries are states or the
      * marker 0. */
    predicate Valid()
    {
      && base.Valid()
      && |table| < U32 && |table| == base.states * base.alphabet
      && (forall f :: f in finals ==> f <= base.states)
      && (forall t :: t in table ==> t <= base.states)
    }
  }

  /** The alphabet size the constructor derives: the table size cast to `uint32_t`,
    * divided by the number of states. */
  function DerivedAlphabet(states: nat, table: seq<nat>): nat
    requires states != 0
  {
    (|table| % U32) / states
  }

  /** The constructor. It aborts (None) when the base constructor does, when a final
    * state or a table entry exceeds the number of states, or when the table size
    * differs from states times the derived alphabet in 32-bit arithmetic. Without
    * states, the division deriving the alphabet already fails. */
  function Construct(states: nat, start: nat, finals: seq<nat>, table: seq<nat>): (r: Option<Dfa>)
    ensures r.Some? <==>
      && 0 < start <= states && |table| < U32 && |table| % states == 0
      && (forall f :: f in finals ==> f <= states) && (forall t :: t in table ==> t <= states)
    ensures r.Some? ==> r.value.Valid() && r.value.finals == finals && r.value.table == table
    ensures r.Some? ==> r.value.base.GetStatesNum() == states && r.value.base.GetInitialState() == start
    ensures r.Some? ==> r.value.base.GetAlphabetNum() * states == |table|
  {
    if states == 0 then None
    else
      var alphabet := DerivedAlphabet(states, table);
      var base := FiniteAutomaton.Construct(states, alphabet, start);
      DivExact(|table| % U32, states);
      if base.None? then None
      else if (forall f :: f in finals ==> f <= states) && |table| == Mul32(states, alphabet)
        && (forall t :: t in table ==> t <= states)
      then Some(Dfa(base.value, finals, table))
      else None
  }

  /** `action(curr, sym)`: the entry at ((curr - 1) * alphabet + (sym - 1)), computed in
    * 32-bit arithmetic; an index past the table is rejected by the bounds-checked
    * lookup (None). */
  function Action(d: Dfa, curr: nat, sym: nat): Option<nat>
  {
    var index := Add32(Mul32(Sub32(curr, 1), d.base.alphabet), Sub32(sym, 1));
    if index < |d.table| then Some(d.table[index]) else None
  }

  /** For a state and a symbol of the alphabet, `action` reads that state's row at that
    * symbol's column, and the result is a state or the marker 0. */
  lemma ActionInRange(d: Dfa, curr: nat, sym: nat)
    requires d.Valid() && d.base.IsState(curr) && 1 <= sym <= d.base.alphabet
    ensures (curr - 1) * d.base.alphabet + (sym - 1) < |d.table|
    ensures Action(d, curr, sym) == Some(d.table[(curr - 1) * d.base.alphabet + (sym - 1)])
    ensures Action(d, curr, sym).value <= d.base.states
  {
    var k := d.base.alphabet;
    RowBound(curr - 1, sym - 1, d.base.states, k);
    var index := (curr - 1) * k + (sym - 1);
    assert index < |d.table| < U32;
    assert 1 * k <= d.base.states * k;
    assert Sub32(curr, 1) == curr - 1 && Sub32(sym, 1) == sym - 1;
    assert Mul32(curr - 1, k) == (curr - 1) * k;
    assert Add32((curr - 1) * k, sym - 1) == index;
    assert d.table[index] in d.table;
  }

  /** The marker 0 has no row: `curr - 1` wraps to 2^32 - 1 and the index lands past the
    * table, as long as the table leaves room for one more row below 2^32. */
  lemma ActionRejectsMarker(d: Dfa, sym: nat)
    requires d.Valid() && 1 <= sym <= d.base.alphabet
    requires (d.base.states + 1) * d.base.alphabet <= U32
    ensures Action(d, 0, sym) == None
  {
    var k := d.base.alphabet;
    assert Sub32(0, 1) == U32 - 1;
    assert (U32 - 1) * k == (k - 1) * U32 + (U32 - k);
    assert Mul32(U32 - 1, k) == U32 - k;
    assert (d.base.states + 1) * k == d.base.states * k + k;
  }

  /** `is_final(st)`: whether `st` occurs in the list of final states. */
  function IsFinal(d: Dfa, st: nat): (r: bool)
    ensures r <==> exists i :: 0 <= i < |d.finals| && d.finals[i] == st
  {
    st in d.finals
  }

  /** What `construct_read` makes of the values from position `at` on: the number of
    * states, the start state, the number of final states `fs`, the alphabet size, then
    * `fs` final states and (alphabet * states, in 32-bit arithmetic) table entries; the
    * automaton and the position after them, or None when the values run out or the
    * constructor aborts. */
  function Decode(ts: seq<nat>, at: nat): Option<(Dfa, nat)>
    requires at <= |ts|
  {
    if |ts| < at + 4 then None
    else
      var count := Mul32(ts[at + 3], ts[at]);
      var next := at + 4 + ts[at + 2] + count;
      if |ts| < next then None
      else
        match Construct(ts[at], ts[at + 1], ts[at + 4..at + 4 + ts[at + 2]], ts[at + 4 + ts[at + 2]..next])
        case None => None
        case Some(d) => Some((d, next))
  }

  /** The values that describe `d` in the format `construct_read` reads. */
  function Encode(d: Dfa): seq<nat>
  {
    [d.base.states, d.base.start, |d.finals|, d.base.alphabet] + d.finals + d.table
  }

  /** What a successful read yields is a constructed automaton, and the read consumes
    * exactly its four header values, its final states and its table. */
  lemma DecodeConsumes(ts: seq<nat>, at: nat)
    requires at <= |ts| && Decode(ts, at).Some?
    ensures Decode(ts, at).value.0.Valid()
    ensures Decode(ts, at).value.1 == at + 4 + |Decode(ts, at).value.0.finals| + |Decode(ts, at).value.0.table|
  {
  }

  /** Reading back what `Encode` writes gives the automaton again, whatever precedes or
    * follows it. */
  lemma DecodeEncode(d: Dfa, before: seq<nat>, after: seq<nat>)
    requires d.Valid() && |d.finals| < U32
    ensures Decode(before + Encode(d) + after, |before|) == Some((d, |before| + |Encode(d)|))
  {
    var ts := before + Encode(d) + after;
    var at := |before|;
    var states, k := d.base.states, d.base.alphabet;
    assert ts[at..at + |Encode(d)|] == Encode(d);
    assert ts[at] == states && ts[at + 1] == d.base.start && ts[at + 2] == |d.finals| && ts[at + 3] == k;
    assert Mul32(k, states) == |d.table|;
    assert ts[at + 4..at + 4 + |d.finals|] == d.finals;
    assert ts[at + 4 + |d.finals|..at + |Encode(d)|] == d.table;
    DivOfProduct(states, k);
  }

  /** `construct_read`: read the header, then the final states and the table entries
    * with counted loops, and construct the automaton; the position after the values
    * read is returned too, so that several automata can be read one after another. */
  method ConstructRead(ts: seq<nat>, at: nat) returns (r: Option<(Dfa, nat)>)
    requires at <= |ts|
    ensures r == Decode(ts, at)
  {
    if |ts| < at + 4 {
      return None;
    }
    var states, start := ts[at], ts[at + 1];
    var fsNum, alphNum := ts[at + 2], ts[at + 3];
    var finals := TokenStream.ReadValues(ts, at + 4, fsNum);
    if finals.None? {
      return None;
    }
    var count := Mul32(alphNum, states);
    var table := TokenStream.ReadValues(ts, at + 4 + fsNum, count);
    if table.None? {
      return None;
    }
    var d := Construct(states, start, finals.value, table.value);
    if d.None? {
      return None;
    }
    return Some((d.value, at + 4 + fsNum + count));
  }
}

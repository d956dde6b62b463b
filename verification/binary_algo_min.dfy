/**
 * The second version of the product construction (src/binary_algo/binary_algo.cpp):
 * the same exploration, after which `minimizate` removes every repeated pair from the
 * visit order together with its row of the pair table, so that each reachable pair
 * becomes exactly one state of the result.
 */
module BinaryAlgoMin {
  import opened Wrappers
  import opened Uint32
  import opened DfaAutomaton
  import opened BinaryAlgo

  /** The pairs of `s` that are neither in `seen` nor repeated earlier in `s`, in order:
    * what is left of the visit order once every repeat is erased. */
  function Keep(s: seq<Pair>, seen: set<Pair>): (r: seq<Pair>)
    ensures forall p :: p in r <==> p in s && p !in seen
    ensures forall i, j :: 0 <= i < j < |r| ==> r[i] != r[j]
    ensures s != [] && s[0] !in seen ==> r != [] && r[0] == s[0]
    decreases |s|
  {
    if s == [] then []
    else
      var rest := Keep(s[1..], seen + {s[0]});
      assert forall p :: p in s <==> p == s[0] || p in s[1..];
      if s[0] in seen then rest else [s[0]] + rest
  }

  /** What is left of the table `t`, made of rows of width `w` that belong to the pairs
    * of `s` in order, once the rows of the pairs `Keep` drops are erased; rows past
    * the end of `s` are kept. */
  function KeepBlocks(s: seq<Pair>, t: seq<Pair>, w: nat, seen: set<Pair>): seq<Pair>
    requires |s| * w <= |t|
    decreases |s|
  {
    if s == [] then t
    else
      MulSucc(|s| - 1, w);
      (if s[0] in seen then [] else t[..w]) + KeepBlocks(s[1..], t[w..], w, seen + {s[0]})
  }

  /** Erasing rows keeps only entries of the table. */
  lemma {:induction false} KeepBlocksWithin(s: seq<Pair>, t: seq<Pair>, w: nat, seen: set<Pair>)
    requires |s| * w <= |t|
    ensures forall p :: p in KeepBlocks(s, t, w, seen) ==> p in t
    decreases |s|
  {
    if s != [] {
      MulSucc(|s| - 1, w);
      KeepBlocksWithin(s[1..], t[w..], w, seen + {s[0]});
      assert forall p :: p in t[w..] ==> p in t;
    }
  }

  lemma ConsSnoc<T>(p: T, s: seq<T>, q: T)
    ensures [p] + (s + [q]) == ([p] + s) + [q]
  {
  }

  /** The table of a sequence that starts with `p` starts with the row of `p`. */
  lemma {:induction false} TableCons(a: Automaton, b: Automaton, k: nat, p: Pair, cs: seq<Pair>)
    requires Compatible(a, b, k) && InRange(a, b, p) && AllInRange(a, b, cs)
    ensures AllInRange(a, b, [p] + cs)
    ensures Table(a, b, k, [p] + cs) == Row(a, b, p, k) + Table(a, b, k, cs)
    decreases |cs|
  {
    if cs == [] {
      TableSnoc(a, b, k, [], p);
      assert [p] + cs == [] + [p];
    } else {
      var init, last := cs[..|cs| - 1], cs[|cs| - 1];
      TableCons(a, b, k, p, init);
      PopLast(cs);
      ConsSnoc(p, init, last);
      TableSnoc(a, b, k, [p] + init, last);
      TableSnoc(a, b, k, init, last);
    }
  }

  /** Erasing the rows of the repeated pairs from the table of a visit order gives the
    * table of what is left of the visit order. */
  lemma {:induction false} KeepBlocksTable(a: Automaton, b: Automaton, k: nat, s: seq<Pair>, seen: set<Pair>)
    requires Compatible(a, b, k) && AllInRange(a, b, s)
    ensures |s| * k <= |Table(a, b, k, s)|
    ensures KeepBlocks(s, Table(a, b, k, s), k, seen) == Table(a, b, k, Keep(s, seen))
    decreases |s|
  {
    TableLength(a, b, k, s);
    if s != [] {
      var t := Table(a, b, k, s);
      assert s == [s[0]] + s[1..];
      TableCons(a, b, k, s[0], s[1..]);
      assert t[..k] == Row(a, b, s[0], k) && t[k..] == Table(a, b, k, s[1..]);
      KeepBlocksTable(a, b, k, s[1..], seen + {s[0]});
      var rest := Keep(s[1..], seen + {s[0]});
      if s[0] !in seen {
        TableCons(a, b, k, s[0], rest);
      }
    }
  }

  /** The sizes of `minimizate`'s state before index `i`: the rows of the pairs from `i`
    * on still fit in the table. */
  ghost predicate MinBounds(s0: seq<Pair>, t0: seq<Pair>, w: nat, states: seq<Pair>, table: seq<Pair>, i: int)
  {
    0 <= i <= |states| && 0 <= w * i <= |table| && (|states| - i) * w <= |table| - w * i
    && |s0| * w <= |t0|
  }

  /** The pairs before `i` are kept, and `seen` holds every pair met so far. */
  ghost predicate MinStates(s0: seq<Pair>, states: seq<Pair>, seen: set<Pair>, i: int)
  {
    0 <= i <= |states| && states[..i] + Keep(states[i..], seen) == Keep(s0, {})
  }

  /** The rows before `i` are kept, and the rest is what erasing will make of it. */
  ghost predicate MinTable(s0: seq<Pair>, t0: seq<Pair>, w: nat, states: seq<Pair>, table: seq<Pair>,
                           seen: set<Pair>, i: int)
  {
    MinBounds(s0, t0, w, states, table, i)
    && table[..w * i] + KeepBlocks(states[i..], table[w * i..], w, seen) == KeepBlocks(s0, t0, w, {})
  }

  lemma EraseBounds(s0: seq<Pair>, t0: seq<Pair>, w: nat, states: seq<Pair>, table: seq<Pair>, i: nat)
    requires MinBounds(s0, t0, w, states, table, i) && i < |states|
    ensures w * (i + 1) <= |table|
    ensures MinBounds(s0, t0, w, states[..i] + states[i + 1..], table[..w * i] + table[w * (i + 1)..], i)
  {
    MulSucc(|states| - i - 1, w);
    MulSucc(i, w);
  }

  lemma EraseStates(s0: seq<Pair>, states: seq<Pair>, seen: set<Pair>, i: nat)
    requires MinStates(s0, states, seen, i) && i < |states| && states[i] in seen
    ensures MinStates(s0, states[..i] + states[i + 1..], seen + {states[i]}, i)
  {
    var s, states' := states[i..], states[..i] + states[i + 1..];
    assert s[1..] == states[i + 1..];
    assert states'[..i] == states[..i] && states'[i..] == s[1..];
  }

  lemma EraseTable(s0: seq<Pair>, t0: seq<Pair>, w: nat, states: seq<Pair>, table: seq<Pair>,
                   seen: set<Pair>, i: nat)
    requires MinTable(s0, t0, w, states, table, seen, i) && i < |states| && states[i] in seen
    ensures w * (i + 1) <= |table|
    ensures MinTable(s0, t0, w, states[..i] + states[i + 1..], table[..w * i] + table[w * (i + 1)..],
                     seen + {states[i]}, i)
  {
    EraseBounds(s0, t0, w, states, table, i);
    var s, t := states[i..], table[w * i..];
    var states', table' := states[..i] + states[i + 1..], table[..w * i] + table[w * (i + 1)..];
    assert s[1..] == states[i + 1..] && t[w..] == table[w * (i + 1)..];
    assert states'[i..] == s[1..];
    assert table'[..w * i] == table[..w * i] && table'[w * i..] == t[w..];
  }

  lemma KeepBounds(s0: seq<Pair>, t0: seq<Pair>, w: nat, states: seq<Pair>, table: seq<Pair>, i: nat)
    requires MinBounds(s0, t0, w, states, table, i) && i < |states|
    ensures MinBounds(s0, t0, w, states, table, i + 1)
  {
    MulSucc(|states| - i - 1, w);
    MulSucc(i, w);
  }

  lemma KeepStates(s0: seq<Pair>, states: seq<Pair>, seen: set<Pair>, i: nat)
    requires MinStates(s0, states, seen, i) && i < |states| && states[i] !in seen
    ensures MinStates(s0, states, seen + {states[i]}, i + 1)
  {
    var s := states[i..];
    assert s[1..] == states[i + 1..];
    assert states[..i + 1] == states[..i] + [s[0]];
  }

  lemma KeepTable(s0: seq<Pair>, t0: seq<Pair>, w: nat, states: seq<Pair>, table: seq<Pair>,
                  seen: set<Pair>, i: nat)
    requires MinTable(s0, t0, w, states, table, seen, i) && i < |states| && states[i] !in seen
    ensures MinTable(s0, t0, w, states, table, seen + {states[i]}, i + 1)
  {
    KeepBounds(s0, t0, w, states, table, i);
    MulSucc(i, w);
    var s, t := states[i..], table[w * i..];
    assert s[1..] == states[i + 1..] && t[w..] == table[w * (i + 1)..];
    assert table[..w * (i + 1)] == table[..w * i] + t[..w];
  }

  /** At the end of the walk everything is kept or erased. */
  lemma MinDone(s0: seq<Pair>, t0: seq<Pair>, w: nat, states: seq<Pair>, table: seq<Pair>,
                seen: set<Pair>, i: int)
    requires MinStates(s0, states, seen, i) && MinTable(s0, t0, w, states, table, seen, i) && i == |states|
    ensures states == Keep(s0, {}) && table == KeepBlocks(s0, t0, w, {})
  {
    var off := w * i;
    assert states[i..] == [] && states[..i] == states;
    assert table[..off] + table[off..] == table;
  }

  /** The row width of a table of `size` entries with `n` rows: `size / n`. */
  function RowWidth(n: nat, size: nat): (w: nat)
    requires n != 0
    ensures n * w <= size
  {
    DivExact(size, n);
    size / n
  }

  /** `minimizate`: walk the visit order, remembering the pairs seen; a pair seen before
    * is erased together with its row of the table (of width table size / number of
    * pairs), and the index steps back so that the next pair is not skipped. */
  method Minimizate(states: seq<Pair>, table: seq<Pair>) returns (states': seq<Pair>, table': seq<Pair>)
    requires |states| > 0
    ensures states' == Keep(states, {})
    ensures table' == KeepBlocks(states, table, RowWidth(|states|, |table|), {})
  {
    var alph := RowWidth(|states|, |table|);
    states', table' := states, table;
    var seen: set<Pair> := {};
    var i: int := 0;
    while i < |states'|
      invariant MinStates(states, states', seen, i) && MinTable(states, table, alph, states', table', seen, i)
      decreases |states'| - i
    {
      var inserted := states'[i] !in seen;
      if !inserted {
        EraseStates(states, states', seen, i);
        EraseTable(states, table, alph, states', table', seen, i);
      } else {
        KeepStates(states, states', seen, i);
        KeepTable(states, table, alph, states', table', seen, i);
      }
      seen := seen + {states'[i]};
      if !inserted {
        states' := states'[..i] + states'[i + 1..];
        table' := table'[..alph * i] + table'[alph * (i + 1)..];
        i := i - 1;
      }
      i := i + 1;
    }
    MinDone(states, table, alph, states', table', seen, i);
  }

  /** After `minimizate`, the visit order without repeats has the same pairs, starts
    * with the same pair, and the table left is its table. */
  lemma Minimized(a: Automaton, b: Automaton, k: nat, cond: (bool, bool) -> bool, cs: seq<Pair>,
                  fs: seq<Pair>, ht: seq<Pair>, states: seq<Pair>, table: seq<Pair>)
    requires Compatible(a, b, k) && cs != [] && AllInRange(a, b, cs)
    requires ht == Table(a, b, k, cs) && forall p :: p in ht ==> p in cs
    requires forall p :: p in fs <==> p in cs && cond(IsFinal(a, p.0), IsFinal(b, p.1))
    requires states == Keep(cs, {}) && table == KeepBlocks(cs, ht, RowWidth(|cs|, |ht|), {})
    ensures states != [] && states[0] == cs[0] && AllInRange(a, b, states)
    ensures table == Table(a, b, k, states) && forall p :: p in table ==> p in states
    ensures forall p :: p in fs <==> p in states && cond(IsFinal(a, p.0), IsFinal(b, p.1))
  {
    TableLength(a, b, k, cs);
    DivOfProduct(|cs|, k);
    KeepBlocksTable(a, b, k, cs, {});
    KeepBlocksWithin(cs, ht, k, {});
  }

  /** The body of this `do_act` for the condition `cond`: explore as before, erase the
    * repeated pairs with `minimizate`, then renumber and construct. The visit order
    * without repeats is returned as `lab`. */
  method MinimizedProduct(a: Automaton, b: Automaton, cond: (bool, bool) -> bool)
    returns (r: Option<Automaton>, ghost lab: seq<Pair>)
    requires a.Valid() && b.Valid()
    ensures forall i, j :: 0 <= i < j < |lab| ==> lab[i] != lab[j]
    ensures AllInRange(a, b, lab) && |lab| <= a.states * b.states
    ensures GetAlphabetNum(a) != GetAlphabetNum(b) ==> r.None?
    ensures GetAlphabetNum(a) == GetAlphabetNum(b) ==> lab != []
    ensures GetAlphabetNum(a) == GetAlphabetNum(b) && |lab| < U32 ==>
              r.Some? && IsProduct(a, b, GetAlphabetNum(a), cond, r.value, lab)
  {
    var alphabet := GetAlphabetNum(a);
    if alphabet != GetAlphabetNum(b) {
      return None, [];
    }
    var c0 := (a.start, b.start);
    var cs, fs, ht := Explore(a, b, alphabet, cond, c0);
    var states, table := Minimizate(cs, ht);
    Minimized(a, b, alphabet, cond, cs, fs, ht, states, table);
    lab := states;
    DistinctPairsBound(a, b, lab);
    var start := Convert(states, [c0]);
    var finals := Convert(states, fs);
    var entries := Convert(states, table);
    r := Construct(|states| % U32, start.value[|start.value| - 1], finals.value, entries.value);
    if |states| < U32 {
      assert |start.value| == 1 && start.value[0] == FirstIndex(states, c0) == 0;
      ModSmall(|states|);
      assert r == Construct(|states|, 0, finals.value, entries.value);
      Assembled(a, b, alphabet, cond, states, fs, table, finals.value, entries.value);
    }
  }

  /** A sequence without repeats has as many distinct elements as positions. */
  lemma {:induction false} DistinctElems(s: seq<Pair>)
    requires forall i, j :: 0 <= i < j < |s| ==> s[i] != s[j]
    ensures |Elems(s)| == |s|
  {
    if s != [] {
      var t := s[..|s| - 1];
      assert Elems(s) == Elems(t) + {s[|s| - 1]};
      assert s[|s| - 1] !in Elems(t);
      DistinctElems(t);
    }
  }

  /** Distinct pairs of states number at most `a.states * b.states`. */
  lemma DistinctPairsBound(a: Automaton, b: Automaton, lab: seq<Pair>)
    requires AllInRange(a, b, lab)
    requires forall i, j :: 0 <= i < j < |lab| ==> lab[i] != lab[j]
    ensures |lab| <= a.states * b.states
  {
    DistinctElems(lab);
    SubsetSize(Elems(lab), Grid(a.states, b.states));
  }

  /** `do_act` with `minimizate`: every state of the result stands for a different pair,
    * and the result accepts the union, the intersection or the difference of the
    * languages of `a` and `b`, over the symbols both alphabets have. */
  method DoAct(a: Automaton, b: Automaton, op: Operator) returns (r: Option<Automaton>, ghost lab: seq<Pair>)
    requires a.Valid() && b.Valid()
    ensures GetAlphabetNum(a) != GetAlphabetNum(b) ==> r.None?
    ensures (forall i, j :: 0 <= i < j < |lab| ==> lab[i] != lab[j])
    ensures AllInRange(a, b, lab) && |lab| <= a.states * b.states
    ensures GetAlphabetNum(a) == GetAlphabetNum(b) ==> lab != []
    ensures GetAlphabetNum(a) == GetAlphabetNum(b) && a.states * b.states < U32 ==> r.Some?
    ensures GetAlphabetNum(a) == GetAlphabetNum(b) && |lab| < U32 ==>
              r.Some? && IsProduct(a, b, GetAlphabetNum(a), Cond(op), r.value, lab)
              && r.value.Valid() && r.value.states == |lab|
              && r.value.Alphabet() == GetAlphabetNum(a)
              && forall w :: Word(w, GetAlphabetNum(a)) ==>
                   (Accepts(r.value, w) <==> ActCondition(Accepts(a, w), Accepts(b, w), op))
  {
    var cond := Cond(op);
    r, lab := MinimizedProduct(a, b, cond);
    if GetAlphabetNum(a) == GetAlphabetNum(b) && |lab| < U32 {
      forall w | Word(w, GetAlphabetNum(a))
        ensures Accepts(r.value, w) <==> ActCondition(Accepts(a, w), Accepts(b, w), op)
      {
        ProductLanguage(a, b, GetAlphabetNum(a), cond, r.value, lab, w);
      }
    }
  }
}

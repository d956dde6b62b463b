/**
 * Product construction over two 0-based automata (`binary_algo::do_act`): a worklist
 * explores the pairs of states reachable from the pair of start states, recording for
 * every pair popped its row of successor pairs and whether the operation makes it
 * final; the pairs are then renumbered by their first position in the visit order.
 */
module BinaryAlgo {
  import opened Wrappers
  import opened Uint32
  import opened DfaAutomaton
  import Graphs

  /** The operations a product can compute. */
  datatype Operator = Association | Intersection | Difference

  /** `act_condition` as written: DIFFERENCE keeps a pair when the first state is final
    * or the second is not. */
  function ActConditionAsWritten(x: bool, y: bool, op: Operator): bool
  {
    match op
    case Association => x || y
    case Intersection => x && y
    case Difference => x || !y
  }

  /** `act_condition` with DIFFERENCE as union, intersection and difference of the two
    * languages require: the first state final and the second not. */
  function ActCondition(x: bool, y: bool, op: Operator): bool
  {
    match op
    case Association => x || y
    case Intersection => x && y
    case Difference => x && !y
  }

  /** The condition `do_act` hands to the exploration for `op`. */
  function Cond(op: Operator): (bool, bool) -> bool
  {
    (x: bool, y: bool) => ActCondition(x, y, op)
  }

  /** The condition as written, for `op`. */
  function CondAsWritten(op: Operator): (bool, bool) -> bool
  {
    (x: bool, y: bool) => ActConditionAsWritten(x, y, op)
  }

  /** A state of the product: a state of the first and a state of the second automaton. */
  type Pair = (nat, nat)

  predicate InRange(a: Automaton, b: Automaton, p: Pair)
  {
    p.0 < a.states && p.1 < b.states
  }

  predicate AllInRange(a: Automaton, b: Automaton, s: seq<Pair>)
  {
    forall p :: p in s ==> InRange(a, b, p)
  }

  /** Both automata are constructed and `k` symbols are columns of both tables. */
  predicate Compatible(a: Automaton, b: Automaton, k: nat)
  {
    a.Valid() && b.Valid() && k <= a.Alphabet() && k <= b.Alphabet()
  }

  /** The pairs a visit order holds. Unlike `SortedSets.Elems` it carries no membership
    * `ensures`: that quantifier would fire on every `in` over a sequence of pairs in the
    * exploration loop, and the set-comprehension definition is all the proofs here need. */
  function Elems<T>(s: seq<T>): set<T>
  {
    set x | x in s
  }

  /** All pairs of states. */
  function Universe(a: Automaton, b: Automaton): set<Pair>
  {
    set i, j | 0 <= i < a.states && 0 <= j < b.states :: (i, j)
  }

  lemma InUniverse(a: Automaton, b: Automaton, p: Pair)
    requires InRange(a, b, p)
    ensures p in Universe(a, b)
  {
    assert p == (p.0, p.1);
  }

  /** The successor pair on symbol `x`: both automata act on their own component. */
  function Step(a: Automaton, b: Automaton, p: Pair, x: nat): (r: Pair)
    requires a.Valid() && b.Valid() && InRange(a, b, p) && x < a.Alphabet() && x < b.Alphabet()
    ensures InRange(a, b, r)
    ensures Action(a, p.0, x) == Some(r.0) && Action(b, p.1, x) == Some(r.1)
  {
    ActionInRange(a, p.0, x);
    ActionInRange(b, p.1, x);
    (Action(a, p.0, x).value, Action(b, p.1, x).value)
  }

  /** The successor pairs of `p` on the symbols 0..n-1, in symbol order. */
  function Row(a: Automaton, b: Automaton, p: Pair, n: nat): (r: seq<Pair>)
    requires Compatible(a, b, n) && InRange(a, b, p)
    ensures |r| == n
    ensures forall x :: 0 <= x < n ==> r[x] == Step(a, b, p, x)
    decreases n
  {
    if n == 0 then [] else Row(a, b, p, n - 1) + [Step(a, b, p, n - 1)]
  }

  /** The pair table of a visit order `cs`: the rows of its pairs, one after another. */
  function Table(a: Automaton, b: Automaton, k: nat, cs: seq<Pair>): seq<Pair>
    requires Compatible(a, b, k) && AllInRange(a, b, cs)
    decreases |cs|
  {
    if cs == [] then [] else Table(a, b, k, cs[..|cs| - 1]) + Row(a, b, cs[|cs| - 1], k)
  }

  lemma TableSnoc(a: Automaton, b: Automaton, k: nat, cs: seq<Pair>, p: Pair)
    requires Compatible(a, b, k) && AllInRange(a, b, cs) && InRange(a, b, p)
    ensures AllInRange(a, b, cs + [p])
    ensures Table(a, b, k, cs + [p]) == Table(a, b, k, cs) + Row(a, b, p, k)
  {
    assert (cs + [p])[..|cs|] == cs;
  }

  /** The table has one row of `k` pairs per pair of the visit order. */
  lemma {:induction false} TableLength(a: Automaton, b: Automaton, k: nat, cs: seq<Pair>)
    requires Compatible(a, b, k) && AllInRange(a, b, cs)
    ensures |Table(a, b, k, cs)| == |cs| * k
    decreases |cs|
  {
    if cs != [] {
      TableLength(a, b, k, cs[..|cs| - 1]);
      assert |cs| * k == (|cs| - 1) * k + k;
    }
  }

  /** Entry (i, x) of the table is the successor of the i-th pair on symbol x. */
  lemma {:induction false} TableEntry(a: Automaton, b: Automaton, k: nat, cs: seq<Pair>, i: nat, x: nat)
    requires Compatible(a, b, k) && AllInRange(a, b, cs) && i < |cs| && x < k
    ensures i * k + x < |Table(a, b, k, cs)|
    ensures Table(a, b, k, cs)[i * k + x] == Step(a, b, cs[i], x)
    decreases |cs|
  {
    var init := cs[..|cs| - 1];
    TableLength(a, b, k, init);
    assert Table(a, b, k, cs) == Table(a, b, k, init) + Row(a, b, cs[|cs| - 1], k);
    if i == |cs| - 1 {
      assert i * k == |Table(a, b, k, init)|;
    } else {
      RowBound(i, x, |cs| - 1, k);
      TableEntry(a, b, k, init, i, x);
      assert cs[i] == init[i];
    }
  }

  /** The position of the first occurrence of `p` in `s`. */
  function FirstIndex<T(==)>(s: seq<T>, p: T): (i: nat)
    requires p in s
    ensures i < |s| && s[i] == p
    ensures forall j :: 0 <= j < i ==> s[j] != p
  {
    if s[0] == p then 0 else 1 + FirstIndex(s[1..], p)
  }

  /** `convert_fn`: each pair is replaced by the position of its first occurrence in
    * `cs`; a pair that does not occur is skipped, and then the length check fails
    * (None). */
  method Convert(cs: seq<Pair>, pv: seq<Pair>) returns (r: Option<seq<nat>>)
    ensures r.Some? <==> forall p :: p in pv ==> p in cs
    ensures r.Some? ==> |r.value| == |pv| && forall j :: 0 <= j < |pv| ==> r.value[j] == FirstIndex(cs, pv[j])
  {
    var vec: seq<nat> := [];
    var j := 0;
    while j < |pv|
      invariant 0 <= j <= |pv| && |vec| <= j
      invariant |vec| == j <==> forall t :: 0 <= t < j ==> pv[t] in cs
      invariant |vec| == j ==> forall t :: 0 <= t < j ==> vec[t] == FirstIndex(cs, pv[t])
    {
      var el := pv[j];
      var i := 0;
      while i < |cs|
        invariant 0 <= i <= |cs|
        invariant forall t :: 0 <= t < i ==> cs[t] != el
      {
        if cs[i] == el {
          assert i == FirstIndex(cs, el);
          vec := vec + [i];
          break;
        }
        i := i + 1;
      }
      j := j + 1;
    }
    if |vec| == |pv| {
      r := Some(vec);
    } else {
      r := None;
    }
  }

  /** The inner loop of the exploration: push the successor pair of `st` for every
    * symbol onto the table, and onto the worklist when it has not been visited. */
  method Expand(a: Automaton, b: Automaton, k: nat, st: Pair, cs: seq<Pair>, ht: seq<Pair>, wq: seq<Pair>)
    returns (ht': seq<Pair>, wq': seq<Pair>)
    requires Compatible(a, b, k) && InRange(a, b, st)
    ensures ht' == ht + Row(a, b, st, k)
    ensures forall p :: p in wq' <==> p in wq || (p in Row(a, b, st, k) && p !in cs)
    ensures Graphs.CountIn(wq', Elems(cs)) == Graphs.CountIn(wq, Elems(cs))
    ensures |wq| <= |wq'| <= |wq| + k
    ensures |wq'| > |wq| ==> wq'[|wq'| - 1] !in cs
  {
    ht', wq' := ht, wq;
    var x := 0;
    while x < k
      invariant 0 <= x <= k
      invariant ht' == ht + Row(a, b, st, x)
      invariant forall p :: p in wq' <==> p in wq || (p in Row(a, b, st, x) && p !in cs)
      invariant Graphs.CountIn(wq', Elems(cs)) == Graphs.CountIn(wq, Elems(cs))
      invariant |wq| <= |wq'| <= |wq| + x
      invariant |wq'| > |wq| ==> wq'[|wq'| - 1] !in cs
    {
      var next := Step(a, b, st, x);
      if next !in cs {
        Graphs.CountInAppend(wq', [next], Elems(cs));
        Graphs.CountInNone([next], Elems(cs));
        wq' := wq' + [next];
      }
      ht' := ht' + [next];
      x := x + 1;
    }
  }

  /** Popping `st` either visits a new pair, or pops one of the worklist entries that
    * were already visited. */
  lemma PopMeasure(cs: seq<Pair>, wq: seq<Pair>, st: Pair, U: set<Pair>)
    requires st in U
    ensures st !in cs ==> U - Elems(cs + [st]) < U - Elems(cs)
    ensures st in cs ==> Elems(cs + [st]) == Elems(cs)
    ensures st in cs ==> Graphs.CountIn(wq + [st], Elems(cs)) == Graphs.CountIn(wq, Elems(cs)) + 1
  {
    Graphs.CountInAppend(wq, [st], Elems(cs));
    assert Graphs.CountIn([st], Elems(cs)) == (if st in cs then 1 else 0) + Graphs.CountIn([], Elems(cs));
    if st !in cs {
      assert st in U - Elems(cs);
      assert st !in U - Elems(cs + [st]);
    }
  }

  lemma PopLast<T>(s: seq<T>)
    requires s != []
    ensures s == s[..|s| - 1] + [s[|s| - 1]]
    ensures forall p :: p in s <==> p in s[..|s| - 1] || p == s[|s| - 1]
  {
  }

  /** The most pairs the exploration visits, repeats included, on `k` symbols: one for
    * the start, and `k` for each of at most twice as many rounds as there are pairs of
    * states. */
  function VisitLimit(a: Automaton, b: Automaton, k: nat): nat
  {
    1 + 2 * k * (a.states * b.states)
  }

  /** The invariant of the worklist loop: the visit order starts with `c0` (the worklist
    * holds just `c0` before the first pop), the table is the rows of the visit order,
    * every pair in the table is visited or waiting, and `fs` holds exactly the visited
    * pairs that `cond` accepts. */
  ghost predicate Exploring(a: Automaton, b: Automaton, k: nat, cond: (bool, bool) -> bool, c0: Pair,
                            cs: seq<Pair>, fs: seq<Pair>, ht: seq<Pair>, wq: seq<Pair>)
  {
    && Compatible(a, b, k)
    && AllInRange(a, b, cs) && AllInRange(a, b, wq)
    && (cs == [] ==> wq == [c0])
    && (cs != [] ==> cs[0] == c0)
    && ht == Table(a, b, k, cs)
    && (forall p :: p in ht ==> p in cs || p in wq)
    && (forall p :: p in fs <==> p in cs && cond(IsFinal(a, p.0), IsFinal(b, p.1)))
  }

  /** One round of the worklist loop: pop the most recently pushed pair, append it to
    * the visit order (even if it was visited before), record it as final if `cond` says
    * so, and expand it. Either a new pair is visited, or the set of visited pairs stays
    * and one already visited entry leaves the worklist. */
  method Visit(a: Automaton, b: Automaton, k: nat, cond: (bool, bool) -> bool, c0: Pair,
               cs: seq<Pair>, fs: seq<Pair>, ht: seq<Pair>, wq: seq<Pair>)
    returns (cs': seq<Pair>, fs': seq<Pair>, ht': seq<Pair>, wq': seq<Pair>)
    requires Exploring(a, b, k, cond, c0, cs, fs, ht, wq) && wq != []
    ensures Exploring(a, b, k, cond, c0, cs', fs', ht', wq')
    ensures cs' == cs + [wq[|wq| - 1]]
    ensures |wq| - 1 <= |wq'| <= |wq| - 1 + k
    ensures |wq'| > |wq| - 1 ==> wq'[|wq'| - 1] !in cs'
    ensures || Universe(a, b) - Elems(cs') < Universe(a, b) - Elems(cs)
            || (Elems(cs') == Elems(cs) && Graphs.CountIn(wq', Elems(cs')) < Graphs.CountIn(wq, Elems(cs)))
  {
    var st := wq[|wq| - 1];
    PopLast(wq);
    wq' := wq[..|wq| - 1];
    InUniverse(a, b, st);
    PopMeasure(cs, wq', st, Universe(a, b));
    TableSnoc(a, b, k, cs, st);
    cs' := cs + [st];
    fs' := fs;
    if cond(IsFinal(a, st.0), IsFinal(b, st.1)) {
      fs' := fs + [st];
    }
    ht', wq' := Expand(a, b, k, st, cs', ht, wq');
  }

  /** The worklist loop: visit pairs until the worklist is empty. The visit order starts
    * with `c0`, every pair of the table has been visited, and the table is the rows of
    * the visit order.
    *
    * Repeats are bounded: a pop of a visited pair that pushes anything is followed at
    * once by the pop of an unvisited pair (the worklist is LIFO), so at most twice as
    * many pops push as there are distinct pairs, each pushing at most `k` pairs. */
  method Explore(a: Automaton, b: Automaton, k: nat, cond: (bool, bool) -> bool, c0: Pair)
    returns (cs: seq<Pair>, fs: seq<Pair>, ht: seq<Pair>)
    requires Compatible(a, b, k) && InRange(a, b, c0)
    ensures cs != [] && cs[0] == c0 && AllInRange(a, b, cs)
    ensures ht == Table(a, b, k, cs)
    ensures forall p :: p in ht ==> p in cs
    ensures forall p :: p in fs <==> p in cs && cond(IsFinal(a, p.0), IsFinal(b, p.1))
    ensures |cs| <= VisitLimit(a, b, k)
  {
    cs, fs, ht := [], [], [];
    var wq := [c0];
    ghost var U := Universe(a, b);
    ghost var n, rp, pending := 0, 0, false;
    while wq != []
      invariant Exploring(a, b, k, cond, c0, cs, fs, ht, wq)
      invariant Accounted(cs, wq, k, n, rp, pending)
      decreases U - Elems(cs), Graphs.CountIn(wq, Elems(cs))
    {
      ghost var cs0, wq0 := cs, wq;
      cs, fs, ht, wq := Visit(a, b, k, cond, c0, cs, fs, ht, wq);
      n, rp, pending := AccountStep(cs0, wq0, k, n, rp, pending, wq);
    }
    VisitBound(a, b, cs, k, n, rp);
  }

  /** `m * k`, as `m` rounds of at most `k` pushes each, so that the worklist's
    * accounting stays linear. */
  function Budget(m: nat, k: nat): nat
  {
    if m == 0 then 0 else Budget(m - 1, k) + k
  }

  /** The accounting of the worklist loop: `n` distinct pairs have been visited; `rp`
    * pops of an already visited pair pushed something; `pending` says the last pop was
    * such a pop, so the top of the worklist is unvisited and the next pop visits a new
    * pair. Every round pops one pair and pushes at most `k`. */
  ghost predicate Accounted(cs: seq<Pair>, wq: seq<Pair>, k: nat, n: nat, rp: nat, pending: bool)
  {
    && n == |Elems(cs)|
    && (cs == [] ==> rp == 0 && !pending)
    && (cs != [] ==> rp + (if pending then 0 else 1) <= n)
    && (pending ==> wq != [] && wq[|wq| - 1] !in cs)
    && |cs| + |wq| <= 1 + Budget(n + rp, k)
  }

  /** One round of the worklist keeps the accounting: the popped pair is new (one more
    * distinct pair), or it was visited and pushed something (one more such pop, and
    * the pushed top is new), or it was visited and pushed nothing. */
  lemma AccountStep(cs: seq<Pair>, wq: seq<Pair>, k: nat, n: nat, rp: nat, pending: bool, wq': seq<Pair>)
    returns (n': nat, rp': nat, pending': bool)
    requires Accounted(cs, wq, k, n, rp, pending) && wq != []
    requires |wq| - 1 <= |wq'| <= |wq| - 1 + k
    requires |wq'| > |wq| - 1 ==> wq'[|wq'| - 1] !in cs + [wq[|wq| - 1]]
    ensures Accounted(cs + [wq[|wq| - 1]], wq', k, n', rp', pending')
  {
    var st := wq[|wq| - 1];
    var pushed := |wq'| > |wq| - 1;
    if st !in cs {
      assert Elems(cs + [st]) == Elems(cs) + {st};
      n', rp', pending' := n + 1, rp, false;
    } else {
      assert Elems(cs + [st]) == Elems(cs);
      n', rp', pending' := n, if pushed then rp + 1 else rp, pushed;
    }
  }

  lemma {:induction false} BudgetIsProduct(m: nat, k: nat)
    ensures Budget(m, k) == m * k
  {
    if m > 0 {
      BudgetIsProduct(m - 1, k);
      MulSucc(m - 1, k);
    }
  }

  /** The visit order is no longer than its bound once the counters are bounded by the
    * number of distinct pairs, itself at most the number of pairs of states. */
  lemma VisitBound(a: Automaton, b: Automaton, cs: seq<Pair>, k: nat, n: nat, rp: nat)
    requires AllInRange(a, b, cs) && n == |Elems(cs)| && rp <= n
    requires |cs| <= 1 + Budget(n + rp, k)
    ensures |cs| <= VisitLimit(a, b, k)
  {
    var G := Grid(a.states, b.states);
    forall p | p in Elems(cs) ensures p in G {
      assert InRange(a, b, p);
    }
    SubsetSize(Elems(cs), G);
    BudgetIsProduct(n + rp, k);
    ScaleBound(n + rp, a.states * b.states, k);
  }

  lemma ScaleBound(x: nat, N: nat, k: nat)
    requires x <= 2 * N
    ensures x * k <= 2 * k * N
  {
    MulMono(k, x, 2 * N);
    assert x * k == k * x;
    assert k * (2 * N) == 2 * k * N;
  }

  lemma MulMono(k: nat, x: nat, y: nat)
    requires x <= y
    ensures k * x <= k * y
  {
    MulNonneg(k, y - x);
    assert k * y == k * x + k * (y - x);
  }

  /** The pairs (i, j) with i < n and j < m, row by row. */
  function Grid(n: nat, m: nat): (r: set<Pair>)
    ensures forall p :: p in r <==> p.0 < n && p.1 < m
    ensures |r| == n * m
  {
    if n == 0 then {}
    else
      var g := Grid(n - 1, m);
      var l := Line(n - 1, m);
      assert g * l == {};
      MulSucc(n - 1, m);
      g + l
  }

  /** The pairs (i, j) with j < m. */
  function Line(i: nat, m: nat): (r: set<Pair>)
    ensures forall p :: p in r <==> p.0 == i && p.1 < m
    ensures |r| == m
  {
    if m == 0 then {} else Line(i, m - 1) + {(i, m - 1)}
  }

  lemma SubsetSize<T>(A: set<T>, B: set<T>)
    requires A <= B
    ensures |A| <= |B|
  {
    assert B == A + (B - A);
  }

  /** `r` is the product of `a` and `b` on `k` symbols for the condition `cond`, `lab[i]`
    * being the pair of states that state i of `r` stands for: state 0 is the pair of
    * start states; from a state, symbol x leads to the first state labelled with the
    * successor pair; a state is final when it is the first with its label and `cond`
    * holds of the finality of the two components. */
  ghost predicate IsProduct(a: Automaton, b: Automaton, k: nat, cond: (bool, bool) -> bool,
                            r: Automaton, lab: seq<Pair>)
  {
    Compatible(a, b, k) && r.Valid() && r.Alphabet() == k
    && |lab| == r.states && r.start == 0 && lab[0] == (a.start, b.start)
    && AllInRange(a, b, lab)
    && (forall i, x :: 0 <= i < |lab| && 0 <= x < k ==>
          Step(a, b, lab[i], x) in lab && Action(r, i, x) == Some(FirstIndex(lab, Step(a, b, lab[i], x))))
    && (forall i :: 0 <= i < |lab| ==>
          (IsFinal(r, i) <==> FirstIndex(lab, lab[i]) == i && cond(IsFinal(a, lab[i].0), IsFinal(b, lab[i].1))))
  }

  /** The converted table has one row of `k` entries per visited pair, and every entry
    * is a position of the visit order. */
  lemma AssembledShape(a: Automaton, b: Automaton, k: nat, lab: seq<Pair>, ht: seq<Pair>, table: seq<nat>)
    requires Compatible(a, b, k) && lab != [] && AllInRange(a, b, lab)
    requires ht == Table(a, b, k, lab) && forall p :: p in ht ==> p in lab
    requires |table| == |ht| && forall j :: 0 <= j < |ht| ==> table[j] == FirstIndex(lab, ht[j])
    ensures |table| % |lab| == 0 && |table| / |lab| == k
    ensures forall t :: t in table ==> t < |lab|
  {
    TableLength(a, b, k, lab);
    DivOfProduct(|lab|, k);
    forall t | t in table
      ensures t < |lab|
    {
      var j :| 0 <= j < |table| && table[j] == t;
      assert ht[j] in ht;
    }
  }

  /** Entry (i, x) of the converted table is the first position of the successor pair
    * of `lab[i]`, so that is where the constructed automaton moves. */
  lemma AssembledEntry(a: Automaton, b: Automaton, k: nat, lab: seq<Pair>, ht: seq<Pair>, r: Automaton,
                       i: nat, x: nat)
    requires Compatible(a, b, k) && AllInRange(a, b, lab) && i < |lab| && x < k
    requires ht == Table(a, b, k, lab) && forall p :: p in ht ==> p in lab
    requires r.Valid() && r.states == |lab| && r.Alphabet() == k
    requires |r.table| == |ht| && forall j :: 0 <= j < |ht| ==> r.table[j] == FirstIndex(lab, ht[j])
    ensures Step(a, b, lab[i], x) in lab
    ensures Action(r, i, x) == Some(FirstIndex(lab, Step(a, b, lab[i], x)))
  {
    TableEntry(a, b, k, lab, i, x);
    RowBound(i, x, |lab|, k);
    var j := i * k + x;
    PickEntry(lab, ht, r.table, j);
    ActionAt(r, i, x, j);
  }

  lemma PickEntry(lab: seq<Pair>, ht: seq<Pair>, table: seq<nat>, j: nat)
    requires j < |ht| && forall p :: p in ht ==> p in lab
    requires |table| == |ht| && forall j :: 0 <= j < |ht| ==> table[j] == FirstIndex(lab, ht[j])
    ensures ht[j] in lab && table[j] == FirstIndex(lab, ht[j])
  {
    assert ht[j] in ht;
  }

  /** The final states of the renumbered product are the first positions of the pairs
    * the condition accepts. */
  lemma AssembledFinals(a: Automaton, b: Automaton, cond: (bool, bool) -> bool, lab: seq<Pair>,
                        fs: seq<Pair>, finals: seq<nat>, i: nat)
    requires AllInRange(a, b, lab) && i < |lab|
    requires forall p :: p in fs <==> p in lab && cond(IsFinal(a, p.0), IsFinal(b, p.1))
    requires |finals| == |fs| && forall j :: 0 <= j < |fs| ==> finals[j] == FirstIndex(lab, fs[j])
    ensures i in finals <==> FirstIndex(lab, lab[i]) == i && cond(IsFinal(a, lab[i].0), IsFinal(b, lab[i].1))
  {
    if i in finals {
      var j :| 0 <= j < |finals| && finals[j] == i;
      assert fs[j] in fs;
    }
    if FirstIndex(lab, lab[i]) == i && cond(IsFinal(a, lab[i].0), IsFinal(b, lab[i].1)) {
      var j :| 0 <= j < |fs| && fs[j] == lab[i];
      assert finals[j] == i;
    }
  }

  /** Constructing the automaton from a visit order and its converted finals and table
    * yields the product. */
  lemma Assembled(a: Automaton, b: Automaton, k: nat, cond: (bool, bool) -> bool, lab: seq<Pair>,
                  fs: seq<Pair>, ht: seq<Pair>, finals: seq<nat>, table: seq<nat>)
    requires Compatible(a, b, k) && lab != [] && lab[0] == (a.start, b.start) && AllInRange(a, b, lab)
    requires ht == Table(a, b, k, lab) && forall p :: p in ht ==> p in lab
    requires forall p :: p in fs <==> p in lab && cond(IsFinal(a, p.0), IsFinal(b, p.1))
    requires |finals| == |fs| && forall j :: 0 <= j < |fs| ==> finals[j] == FirstIndex(lab, fs[j])
    requires |table| == |ht| && forall j :: 0 <= j < |ht| ==> table[j] == FirstIndex(lab, ht[j])
    ensures Construct(|lab|, 0, finals, table).Some?
    ensures IsProduct(a, b, k, cond, Construct(|lab|, 0, finals, table).value, lab)
  {
    AssembledShape(a, b, k, lab, ht, table);
    var r := Construct(|lab|, 0, finals, table).value;
    forall i, x | 0 <= i < |lab| && 0 <= x < k
      ensures Step(a, b, lab[i], x) in lab && Action(r, i, x) == Some(FirstIndex(lab, Step(a, b, lab[i], x)))
    {
      AssembledEntry(a, b, k, lab, ht, r, i, x);
    }
    forall i | 0 <= i < |lab|
      ensures IsFinal(r, i) <==> FirstIndex(lab, lab[i]) == i && cond(IsFinal(a, lab[i].0), IsFinal(b, lab[i].1))
    {
      AssembledFinals(a, b, cond, lab, fs, finals, i);
    }
  }

  /** From a state that is the first with its label, the product runs in step with both
    * automata: it ends in a state that is the first with its label, and the label is
    * the pair of states the two runs end in. */
  lemma {:induction false} ProductRun(a: Automaton, b: Automaton, k: nat, cond: (bool, bool) -> bool,
                                      r: Automaton, lab: seq<Pair>, i: nat, w: seq<nat>)
    requires IsProduct(a, b, k, cond, r, lab) && i < |lab| && FirstIndex(lab, lab[i]) == i && Word(w, k)
    ensures Run(r, i, w).Some? && Run(r, i, w).value < |lab|
    ensures FirstIndex(lab, lab[Run(r, i, w).value]) == Run(r, i, w).value
    ensures Run(a, lab[i].0, w) == Some(lab[Run(r, i, w).value].0)
    ensures Run(b, lab[i].1, w) == Some(lab[Run(r, i, w).value].1)
    decreases |w|
  {
    if w != [] {
      var p := Step(a, b, lab[i], w[0]);
      var t := FirstIndex(lab, p);
      assert Action(r, i, w[0]) == Some(t);
      assert Word(w[1..], k);
      ProductRun(a, b, k, cond, r, lab, t, w[1..]);
    }
  }

  /** The product accepts a word over the `k` symbols exactly when `cond` holds of
    * whether the two automata accept it. */
  lemma ProductLanguage(a: Automaton, b: Automaton, k: nat, cond: (bool, bool) -> bool,
                        r: Automaton, lab: seq<Pair>, w: seq<nat>)
    requires IsProduct(a, b, k, cond, r, lab) && Word(w, k)
    ensures Accepts(r, w) <==> cond(Accepts(a, w), Accepts(b, w))
  {
    ProductRun(a, b, k, cond, r, lab, 0, w);
  }

  /** The body of `do_act` for the condition `cond`: check that the alphabets agree,
    * explore, renumber, and construct the result with as many states as pairs were
    * visited (a 32-bit count). The visit order is returned as `lab`. */
  method Product(a: Automaton, b: Automaton, cond: (bool, bool) -> bool)
    returns (r: Option<Automaton>, ghost lab: seq<Pair>)
    requires a.Valid() && b.Valid()
    ensures GetAlphabetNum(a) != GetAlphabetNum(b) ==> r.None?
    ensures GetAlphabetNum(a) == GetAlphabetNum(b) ==>
              lab != [] && AllInRange(a, b, lab) && |lab| <= VisitLimit(a, b, GetAlphabetNum(a))
    ensures GetAlphabetNum(a) == GetAlphabetNum(b) && |lab| < U32 ==>
              r.Some? && IsProduct(a, b, GetAlphabetNum(a), cond, r.value, lab)
  {
    var alphabet := GetAlphabetNum(a);
    if alphabet != GetAlphabetNum(b) {
      return None, [];
    }
    var c0 := (a.start, b.start);
    var cs, fs, ht := Explore(a, b, alphabet, cond, c0);
    lab := cs;
    var start := Convert(cs, [c0]);
    var finals := Convert(cs, fs);
    var table := Convert(cs, ht);
    r := Construct(|cs| % U32, start.value[0], finals.value, table.value);
    if |cs| < U32 {
      assert start.value[0] == FirstIndex(cs, c0) == 0;
      ModSmall(|cs|);
      assert r == Construct(|cs|, 0, finals.value, table.value);
      Assembled(a, b, alphabet, cond, cs, fs, ht, finals.value, table.value);
    }
  }

  /** `do_act`: the product of `a` and `b` accepts the union, the intersection or the
    * difference of their languages, over the symbols both alphabets have. */
  method DoAct(a: Automaton, b: Automaton, op: Operator) returns (r: Option<Automaton>, ghost lab: seq<Pair>)
    requires a.Valid() && b.Valid()
    ensures GetAlphabetNum(a) != GetAlphabetNum(b) ==> r.None?
    ensures GetAlphabetNum(a) == GetAlphabetNum(b) ==>
              lab != [] && AllInRange(a, b, lab) && |lab| <= VisitLimit(a, b, GetAlphabetNum(a))
    ensures GetAlphabetNum(a) == GetAlphabetNum(b) && VisitLimit(a, b, GetAlphabetNum(a)) < U32 ==> r.Some?
    ensures GetAlphabetNum(a) == GetAlphabetNum(b) && |lab| < U32 ==>
              r.Some? && IsProduct(a, b, GetAlphabetNum(a), Cond(op), r.value, lab)
              && r.value.Valid() && r.value.states == |lab|
              && r.value.Alphabet() == GetAlphabetNum(a)
              && forall w :: Word(w, GetAlphabetNum(a)) ==>
                   (Accepts(r.value, w) <==> ActCondition(Accepts(a, w), Accepts(b, w), op))
  {
    var cond := Cond(op);
    r, lab := Product(a, b, cond);
    if GetAlphabetNum(a) == GetAlphabetNum(b) && |lab| < U32 {
      forall w | Word(w, GetAlphabetNum(a))
        ensures Accepts(r.value, w) <==> ActCondition(Accepts(a, w), Accepts(b, w), op)
      {
        ProductLanguage(a, b, GetAlphabetNum(a), cond, r.value, lab, w);
      }
    }
  }

  /** `do_act` as written: with DIFFERENCE the product accepts a word when the first
    * automaton accepts it or the second does not. */
  method DoActAsWritten(a: Automaton, b: Automaton, op: Operator) returns (r: Option<Automaton>, ghost lab: seq<Pair>)
    requires a.Valid() && b.Valid()
    ensures GetAlphabetNum(a) != GetAlphabetNum(b) ==> r.None?
    ensures GetAlphabetNum(a) == GetAlphabetNum(b) ==>
              lab != [] && AllInRange(a, b, lab) && |lab| <= VisitLimit(a, b, GetAlphabetNum(a))
    ensures GetAlphabetNum(a) == GetAlphabetNum(b) && VisitLimit(a, b, GetAlphabetNum(a)) < U32 ==> r.Some?
    ensures GetAlphabetNum(a) == GetAlphabetNum(b) && |lab| < U32 ==>
              r.Some? && IsProduct(a, b, GetAlphabetNum(a), CondAsWritten(op), r.value, lab)
              && r.value.Valid() && r.value.states == |lab| && r.value.Alphabet() == GetAlphabetNum(a)
              && forall w :: Word(w, GetAlphabetNum(a)) ==>
                   (Accepts(r.value, w) <==> ActConditionAsWritten(Accepts(a, w), Accepts(b, w), op))
  {
    var cond := CondAsWritten(op);
    r, lab := Product(a, b, cond);
    if GetAlphabetNum(a) == GetAlphabetNum(b) && |lab| < U32 {
      forall w | Word(w, GetAlphabetNum(a))
        ensures Accepts(r.value, w) <==> ActConditionAsWritten(Accepts(a, w), Accepts(b, w), op)
      {
        ProductLanguage(a, b, GetAlphabetNum(a), cond, r.value, lab, w);
      }
    }
  }

  /** One state, not final, looping on its single symbol: it accepts no word. */
  const Sink: Automaton := Automaton(1, 0, [], [0])

  /** The difference of `Sink` with itself should be empty, but the condition as written
    * keeps the empty word (rejected by both), so `DoActAsWritten(Sink, Sink, Difference)`
    * accepts it; the corrected condition does not. */
  lemma DifferenceAsWrittenCounterexample()
    ensures Sink.Valid() && GetAlphabetNum(Sink) == 1 && Word([], 1)
    ensures !Accepts(Sink, [])
    ensures ActConditionAsWritten(Accepts(Sink, []), Accepts(Sink, []), Difference)
    ensures !ActCondition(Accepts(Sink, []), Accepts(Sink, []), Difference)
  {
    assert Run(Sink, 0, []) == Some(0);
  }
}

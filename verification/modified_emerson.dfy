/**
 * The modified Emerson-Lei emptiness check (`emptiness_check::bfs::modified_emerson`)
 * over the inverse view of a simple Büchi automaton. State sets are sorted,
 * duplicate-free vectors (strictly increasing sequences here), combined with the
 * sorted-range set operations.
 *
 * Starting from all edge states, each pass replaces L by the states that reach, in
 * one or more steps, an accepting state of L; the passes stop when L is unchanged.
 * The greatest such fixpoint is exactly the set of states from which an accepting
 * cycle can be reached, so the check answers NONEMPTY exactly when the initial state
 * is in it.
 *
 * Facts of the shape "every member of S has a witness in S" are stated with the
 * witness predicate as the only trigger, so that a witness found in S does not
 * in turn ask for a witness of its own.
 */
module ModifiedEmerson {
  import opened Wrappers
  import opened Graphs
  import opened Buchi
  import opened InvBuchi
  import SortedSets

  /** The states with an edge into `X`. */
  function Preds(g: Graph<nat>, X: set<nat>): set<nat>
  {
    set q | q in g && exists s :: s in g[q] && s in X
  }

  /** `x` reaches a state of `X` in zero or more steps. */
  ghost predicate ReachesSome(g: Graph<nat>, X: set<nat>, x: nat)
  {
    exists y :: y in X && Reaches(g, x, y)
  }

  /** The states that reach `X` in zero or more steps. */
  ghost function Backward(g: Graph<nat>, X: set<nat>): set<nat>
  {
    set x | x in X + g.Keys && ReachesSome(g, X, x)
  }

  /** Every state of `S` reaches `X`. */
  ghost predicate AllReach(g: Graph<nat>, X: set<nat>, S: set<nat>)
  {
    forall x {:trigger ReachesSome(g, X, x)} :: x in S ==> ReachesSome(g, X, x)
  }

  /** Every predecessor of a state of `S` outside `B` is in `S`. */
  ghost predicate ClosedOutside(g: Graph<nat>, S: set<nat>, B: set<nat>)
  {
    forall q, s :: q in g && s in g[q] && s in S && s !in B ==> q in S
  }

  /** `x` has a successor in `T`. */
  predicate HasSucc(g: Graph<nat>, T: set<nat>, x: nat)
  {
    x in g && exists s :: s in g[x] && s in T
  }

  /** Every state of `T` has a successor in `T`. */
  ghost predicate Live(g: Graph<nat>, T: set<nat>)
  {
    forall x {:trigger HasSucc(g, T, x)} :: x in T ==> HasSucc(g, T, x)
  }

  /** One pass of the outer loop for the acceptance set `F`: the states reaching, in
    * zero or more steps, a predecessor of an accepting state of `L`. */
  ghost function Pass(g: Graph<nat>, F: set<nat>, L: set<nat>): set<nat>
  {
    Backward(g, Preds(g, L * F))
  }

  /** `x` reaches, in one or more steps, an accepting state of `L`. */
  ghost predicate Recurrent(g: Graph<nat>, F: set<nat>, L: set<nat>, x: nat)
  {
    exists f :: f in L && f in F && ReachesPlus(g, x, f)
  }

  /** Every recurrent state is in `L` (a pass does not grow `L`). */
  ghost predicate Contracting(g: Graph<nat>, F: set<nat>, L: set<nat>)
  {
    forall x {:trigger Recurrent(g, F, L, x)} :: Recurrent(g, F, L, x) ==> x in L
  }

  /** Every state of `L` is recurrent (a pass does not shrink `L`). */
  ghost predicate Expanding(g: Graph<nat>, F: set<nat>, L: set<nat>)
  {
    forall x {:trigger Recurrent(g, F, L, x)} :: x in L ==> Recurrent(g, F, L, x)
  }

  /** `x` reaches, in one or more steps, an accepting state on a cycle. */
  ghost predicate Lasso(g: Graph<nat>, F: set<nat>, x: nat)
  {
    exists f :: f in F && ReachesPlus(g, f, f) && ReachesPlus(g, x, f)
  }

  /** The states from which an accepting cycle can be reached in one or more steps:
    * what the outer loop converges to. */
  ghost function LassoStates(g: Graph<nat>, F: set<nat>): set<nat>
  {
    set x | x in g && Lasso(g, F, x)
  }

  /** The states with an edge into one of the first `i` entries of `states`. */
  ghost function PrefixPreds(g: Graph<nat>, states: seq<nat>, i: nat): set<nat>
    requires i <= |states|
  {
    set q | q in g && exists j :: 0 <= j < i && states[j] in g[q]
  }

  /** Looking at one more entry adds its predecessors. */
  lemma PrefixPredsStep(g: Graph<nat>, states: seq<nat>, i: nat)
    requires i < |states|
    ensures forall q :: q in PrefixPreds(g, states, i + 1) <==>
      q in PrefixPreds(g, states, i) || (q in g && states[i] in g[q])
  {
    forall q | q in g && states[i] in g[q] ensures q in PrefixPreds(g, states, i + 1) {
      assert states[i] in g[q];
    }
  }

  /** Looking at every entry gives the predecessors of the whole set. */
  lemma PrefixPredsAll(g: Graph<nat>, states: seq<nat>)
    ensures PrefixPreds(g, states, |states|) == Preds(g, SortedSets.Elems(states))
  {
    forall q | q in Preds(g, SortedSets.Elems(states)) ensures q in PrefixPreds(g, states, |states|) {
      var s :| s in g[q] && s in SortedSets.Elems(states);
      var j :| 0 <= j < |states| && states[j] == s;
    }
  }

  /** `pre(states)`: the predecessors of every state of `states`, looked up in the
    * reversed table, then sorted with duplicates removed. */
  method Pre(ib: InvAutomaton, states: seq<nat>) returns (r: seq<nat>)
    requires ib.Valid()
    ensures SortedSets.Increasing(r)
    ensures SortedSets.Elems(r) == Preds(ib.base.trans, SortedSets.Elems(states))
  {
    ghost var g := ib.base.trans;
    var result: seq<nat> := [];
    for i := 0 to |states|
      invariant forall q :: q in result <==> q in PrefixPreds(g, states, i)
    {
      ghost var before := result;
      var preds := AcceptableInvTransitions(ib, states[i]);
      if preds.Some? {
        var members := SortedSets.SortedFromSet(preds.value);
        result := result + members;
      }
      PrefixPredsStep(g, states, i);
      assert forall q :: q in result <==> q in before || (q in g && states[i] in g[q]);
    }
    r := SortedSets.SortUnique(result);
    PrefixPredsAll(g, states);
    assert forall q :: q in r <==> q in PrefixPreds(g, states, |states|);
  }

  /** Every state reaches itself, so the states of `X` reach `X`. */
  lemma AllReachStart(g: Graph<nat>, X: set<nat>)
    ensures AllReach(g, X, X)
  {
    forall x | x in X ensures ReachesSome(g, X, x) {
      ReachesRefl(g, x);
    }
  }

  /** A state with an edge into the frontier reaches `X` when the frontier does, so one
    * round of `backward_bfs` adds only states that reach `X`. */
  lemma BfsReach(g: Graph<nat>, X: set<nat>, S0: set<nat>, B0: set<nat>, S1: set<nat>)
    requires B0 <= S0 && AllReach(g, X, S0)
    requires forall y :: y in S1 ==> y in Preds(g, B0) || y in S0
    ensures AllReach(g, X, S1)
  {
    forall x | x in S1 ensures ReachesSome(g, X, x) {
      if x !in S0 {
        var s :| s in g[x] && s in B0;
        assert ReachesSome(g, X, s);
        var y :| y in X && Reaches(g, s, y);
        ReachesEdge(g, x, s);
        ReachesTrans(g, x, s, y);
      } else {
        assert ReachesSome(g, X, x);
      }
    }
  }

  /** One round of `backward_bfs`: the new frontier is the predecessors of the old one
    * not yet in S, and S grows by it. S keeps `X` and stays among `X` and the sources,
    * every predecessor of S outside the new frontier is in S, and a non-empty frontier
    * is progress within that finite universe. */
  lemma BfsRound(g: Graph<nat>, X: set<nat>, S0: set<nat>, B0: set<nat>, P: set<nat>, B1: set<nat>, S1: set<nat>)
    requires X <= S0 <= X + g.Keys && B0 <= S0 && ClosedOutside(g, S0, B0)
    requires P == Preds(g, B0)
    requires forall y :: y in B1 <==> y in P && y !in S0
    requires forall y :: y in S1 <==> y in B1 || y in S0
    ensures X <= S1 <= X + g.Keys && B1 <= S1 && ClosedOutside(g, S1, B1)
    ensures B1 != {} ==> X + g.Keys - S1 < X + g.Keys - S0
  {
    forall q, s | q in g && s in g[q] && s in S1 && s !in B1 ensures q in S1 {
      if s in B0 {
        assert q in Preds(g, B0);
      }
    }
    if B1 != {} {
      var b :| b in B1;
      assert b in (X + g.Keys - S0) - (X + g.Keys - S1);
    }
  }

  /** A set between `X` and what reaches `X` that is closed under predecessors is
    * exactly what reaches `X`. */
  lemma BackwardLeast(g: Graph<nat>, X: set<nat>, S: set<nat>)
    requires X <= S <= X + g.Keys && AllReach(g, X, S) && ClosedOutside(g, S, {})
    ensures S == Backward(g, X)
  {
    forall x | x in S ensures x in Backward(g, X) {
      assert ReachesSome(g, X, x);
    }
    assert forall z, w :: z in g && w in g[z] && w in S ==> z in S;
    forall x | x in Backward(g, X) ensures x in S {
      assert ReachesSome(g, X, x);
      var y :| y in X && Reaches(g, x, y);
      ClosedBack(g, S, x, y);
    }
  }

  /** What a `backward_bfs` round keeps: S holds `X`, lies among `X` and the sources,
    * holds the frontier `B` and only states reaching `X`, and every predecessor of S
    * outside the frontier is in S. */
  ghost predicate BfsInv(g: Graph<nat>, X: set<nat>, S: set<nat>, B: set<nat>)
  {
    X <= S <= X + g.Keys && B <= S && AllReach(g, X, S) && ClosedOutside(g, S, B)
  }

  /** The body of the `backward_bfs` loop: B becomes the predecessors of B not yet in S,
    * and S gains them. A non-empty new frontier is progress. */
  method BfsStep(ib: InvAutomaton, ghost X: set<nat>, S: seq<nat>, B: seq<nat>) returns (S': seq<nat>, B': seq<nat>)
    requires ib.Valid() && SortedSets.Increasing(S) && SortedSets.Increasing(B)
    requires BfsInv(ib.base.trans, X, SortedSets.Elems(S), SortedSets.Elems(B))
    ensures SortedSets.Increasing(S') && SortedSets.Increasing(B')
    ensures BfsInv(ib.base.trans, X, SortedSets.Elems(S'), SortedSets.Elems(B'))
    ensures B' != [] ==> X + ib.base.trans.Keys - SortedSets.Elems(S') < X + ib.base.trans.Keys - SortedSets.Elems(S)
  {
    ghost var g := ib.base.trans;
    var P := Pre(ib, B);
    B' := SortedSets.SetDifference(P, S);
    S' := SortedSets.SetUnion(B', S);
    BfsReach(g, X, SortedSets.Elems(S), SortedSets.Elems(B), SortedSets.Elems(S'));
    BfsRound(g, X, SortedSets.Elems(S), SortedSets.Elems(B), SortedSets.Elems(P),
      SortedSets.Elems(B'), SortedSets.Elems(S'));
    if B' != [] {
      assert B'[0] in SortedSets.Elems(B');
    }
  }

  /** `backward_bfs(states)`: grow S by the new predecessors B of the last frontier until
    * a round adds nothing; the result is every state that reaches `states`. */
  method BackwardBfs(ib: InvAutomaton, states: seq<nat>) returns (S: seq<nat>)
    requires ib.Valid() && SortedSets.Increasing(states)
    ensures SortedSets.Increasing(S)
    ensures SortedSets.Elems(S) == Backward(ib.base.trans, SortedSets.Elems(states))
  {
    ghost var g := ib.base.trans;
    ghost var X := SortedSets.Elems(states);
    AllReachStart(g, X);
    S := states;
    var B := states;
    var done := false;
    while !done
      invariant SortedSets.Increasing(S) && SortedSets.Increasing(B)
      invariant BfsInv(g, X, SortedSets.Elems(S), SortedSets.Elems(B))
      invariant done ==> B == []
      decreases !done, X + g.Keys - SortedSets.Elems(S)
    {
      S, B := BfsStep(ib, X, S, B);
      done := B == [];
    }
    BackwardLeast(g, X, SortedSets.Elems(S));
  }

  /** One round of `inf`: intersecting S with its predecessors keeps every live subset of
    * the input, and a round that changes S makes it smaller. */
  lemma InfRound(g: Graph<nat>, S0: set<nat>, E: set<nat>, P: set<nat>, E': set<nat>)
    requires forall T {:trigger Live(g, T)} :: T <= S0 && Live(g, T) ==> T <= E
    requires P == Preds(g, E) && E' == E * P
    ensures forall T {:trigger Live(g, T)} :: T <= S0 && Live(g, T) ==> T <= E'
    ensures E' == E ==> Live(g, E')
    ensures E' != E ==> E' < E
  {
    forall T | T <= S0 && Live(g, T) ensures T <= E' {
      forall x | x in T ensures x in E' {
        assert HasSucc(g, T, x);
        var s :| s in g[x] && s in T;
        assert x in Preds(g, E);
      }
    }
    if E' == E {
      forall x | x in E' ensures HasSucc(g, E', x) {
        assert x in Preds(g, E);
      }
    }
  }

  /** `inf(S)`: repeatedly keep only the states of S with a successor in S, until nothing
    * changes. The result is the largest subset of the input in which every state has a
    * successor. */
  method Inf(ib: InvAutomaton, S0: seq<nat>) returns (S: seq<nat>)
    requires ib.Valid() && SortedSets.Increasing(S0)
    ensures SortedSets.Increasing(S) && SortedSets.Elems(S) <= SortedSets.Elems(S0)
    ensures Live(ib.base.trans, SortedSets.Elems(S))
    ensures forall T {:trigger Live(ib.base.trans, T)} ::
      T <= SortedSets.Elems(S0) && Live(ib.base.trans, T) ==> T <= SortedSets.Elems(S)
  {
    ghost var g := ib.base.trans;
    ghost var E0 := SortedSets.Elems(S0);
    S := S0;
    var done := false;
    while !done
      invariant SortedSets.Increasing(S) && SortedSets.Elems(S) <= E0
      invariant forall T {:trigger Live(g, T)} :: T <= E0 && Live(g, T) ==> T <= SortedSets.Elems(S)
      invariant done ==> Live(g, SortedSets.Elems(S))
      decreases !done, SortedSets.Elems(S)
    {
      var oldS := S;
      var preS := Pre(ib, S);
      S := SortedSets.SetIntersection(S, preS);
      InfRound(g, E0, SortedSets.Elems(oldS), SortedSets.Elems(preS), SortedSets.Elems(S));
      done := S == oldS;
      if !done && SortedSets.Elems(S) == SortedSets.Elems(oldS) {
        SortedSets.IncreasingUnique(S, oldS);
      }
    }
  }

  /** What a pass computes, in terms of paths: the states reaching an accepting state of
    * `L` in one or more steps. */
  lemma PassChar(g: Graph<nat>, F: set<nat>, L: set<nat>, x: nat)
    ensures x in Pass(g, F, L) <==> Recurrent(g, F, L, x)
  {
    var P := Preds(g, L * F);
    if x in Pass(g, F, L) {
      assert ReachesSome(g, P, x);
      var y :| y in P && Reaches(g, x, y);
      var f :| f in g[y] && f in L * F;
      ReachesEdge(g, y, f);
      ReachesThenPlus(g, x, y, f);
    }
    if Recurrent(g, F, L, x) {
      var f :| f in L && f in F && ReachesPlus(g, x, f);
      var y := PlusLastEdge(g, x, f);
      assert y in P;
      if x != y {
        ReachesOther(g, x, y);
      }
      assert ReachesSome(g, P, x);
    }
  }

  /** The lasso states are recurrent among themselves and have edges, and a pass from the
    * edge states does not grow them. */
  lemma StartFacts(g: Graph<nat>, F: set<nat>)
    ensures Expanding(g, F, LassoStates(g, F))
    ensures LassoStates(g, F) <= EdgeStates(g)
    ensures Contracting(g, F, EdgeStates(g))
  {
    var Z := LassoStates(g, F);
    forall x | x in Z ensures Recurrent(g, F, Z, x) && x in EdgeStates(g) {
      assert Lasso(g, F, x);
      var f :| f in F && ReachesPlus(g, f, f) && ReachesPlus(g, x, f);
      assert Lasso(g, F, f);
      var z :| z in Succ(g, f) && Reaches(g, z, f);
      assert f in Z;
      var w :| w in Succ(g, x) && Reaches(g, w, f);
    }
    forall x | Recurrent(g, F, EdgeStates(g), x) ensures x in EdgeStates(g) {
      var f :| f in EdgeStates(g) && f in F && ReachesPlus(g, x, f);
      var w :| w in Succ(g, x) && Reaches(g, w, f);
    }
  }

  /** From an accepting state of a set whose every state is recurrent in it, an accepting
    * cycle is reachable: follow accepting states until one lies on a cycle, which must
    * happen since there are finitely many. */
  lemma {:induction false} ReachesCycle(g: Graph<nat>, F: set<nat>, Y: set<nat>, f: nat) returns (h: nat)
    requires f in Y && f in F && Expanding(g, F, Y)
    ensures h in F && ReachesPlus(g, h, h) && Reaches(g, f, h)
    decreases |set h | h in Y && h in F && ReachesPlus(g, f, h)|
  {
    assert Recurrent(g, F, Y, f);
    var f' :| f' in Y && f' in F && ReachesPlus(g, f, f');
    PlusImpliesReaches(g, f, f');
    if ReachesPlus(g, f', f') {
      return f';
    }
    var R := set h | h in Y && h in F && ReachesPlus(g, f, h);
    var R' := set h | h in Y && h in F && ReachesPlus(g, f', h);
    forall h | h in R' ensures h in R {
      PlusImpliesReaches(g, f', h);
      PlusTrans(g, f, f', h);
    }
    ProperSubsetSmaller(R', R, f');
    h := ReachesCycle(g, F, Y, f');
    ReachesTrans(g, f, f', h);
  }

  /** The lasso states are the greatest fixpoint: any set whose every state is
    * recurrent in it is contained in them. */
  lemma {:induction false} GreatestFixpoint(g: Graph<nat>, F: set<nat>, Y: set<nat>)
    requires Expanding(g, F, Y)
    ensures Y <= LassoStates(g, F)
  {
    forall x | x in Y ensures x in LassoStates(g, F) {
      assert Recurrent(g, F, Y, x);
      var f :| f in Y && f in F && ReachesPlus(g, x, f);
      var h := ReachesCycle(g, F, Y, f);
      PlusTrans(g, x, f, h);
      assert Lasso(g, F, x);
      var w :| w in Succ(g, x) && Reaches(g, w, f);
    }
  }

  /** For a simple automaton, the initial state is a lasso state exactly when the
    * accepted language is non-empty. */
  lemma LassoInitial(a: Automaton)
    requires |a.finals| == 1
    ensures InitialState in LassoStates(a.trans, a.finals[0]) <==> a.NonEmpty()
  {
    var g := a.trans;
    if a.NonEmpty() {
      var f := SimpleNonEmptyWitness(a);
      if f == InitialState {
        assert ReachesPlus(g, InitialState, f);
      } else {
        ReachesOther(g, InitialState, f);
      }
      assert Lasso(g, a.finals[0], InitialState);
      var w :| w in Succ(g, InitialState) && Reaches(g, w, f);
      assert InitialState in LassoStates(g, a.finals[0]);
    }
    if InitialState in LassoStates(g, a.finals[0]) {
      assert Lasso(g, a.finals[0], InitialState);
      var f :| f in a.finals[0] && ReachesPlus(g, f, f) && ReachesPlus(g, InitialState, f);
      PlusImpliesReaches(g, InitialState, f);
      SimpleNonEmpty(a, f);
    }
  }

  /** A pass from a set holding the lasso states and not grown by a pass lies between
    * the lasso states and that set. */
  lemma PassBounds(g: Graph<nat>, F: set<nat>, L0: set<nat>)
    requires LassoStates(g, F) <= L0 && Contracting(g, F, L0)
    ensures LassoStates(g, F) <= Pass(g, F, L0) <= L0
  {
    var Z := LassoStates(g, F);
    StartFacts(g, F);
    forall x | x in Pass(g, F, L0) ensures x in L0 {
      PassChar(g, F, L0, x);
    }
    forall x | x in Z ensures x in Pass(g, F, L0) {
      assert Recurrent(g, F, Z, x);
      var f :| f in Z && f in F && ReachesPlus(g, x, f);
      assert Recurrent(g, F, L0, x);
      PassChar(g, F, L0, x);
    }
  }

  /** A pass that did not grow its input is not grown by the next pass either. */
  lemma PassContracting(g: Graph<nat>, F: set<nat>, L0: set<nat>)
    requires Pass(g, F, L0) <= L0
    ensures Contracting(g, F, Pass(g, F, L0))
  {
    var L := Pass(g, F, L0);
    forall x | Recurrent(g, F, L, x) ensures x in L {
      var f :| f in L && f in F && ReachesPlus(g, x, f);
      assert Recurrent(g, F, L0, x);
      PassChar(g, F, L0, x);
    }
  }

  /** A fixpoint of the pass has every state recurrent in it. */
  lemma PassExpanding(g: Graph<nat>, F: set<nat>, L0: set<nat>)
    requires Pass(g, F, L0) == L0
    ensures Expanding(g, F, L0)
  {
    forall x | x in L0 ensures Recurrent(g, F, L0, x) {
      PassChar(g, F, L0, x);
    }
  }

  /** One round of the outer loop: the new L, the pass applied to the old one, still
    * holds the lasso states and is not grown by a further pass; it is smaller unless
    * the round changed nothing, and then every state of it is recurrent. */
  lemma OuterStep(g: Graph<nat>, F: set<nat>, oldL: set<nat>, L: set<nat>)
    requires LassoStates(g, F) <= oldL && Contracting(g, F, oldL) && L == Pass(g, F, oldL)
    ensures LassoStates(g, F) <= L && Contracting(g, F, L)
    ensures L != oldL ==> L < oldL
    ensures L == oldL ==> Expanding(g, F, L)
  {
    PassBounds(g, F, oldL);
    PassContracting(g, F, oldL);
    if L == oldL {
      PassExpanding(g, F, oldL);
    }
  }

  /** `is_empty`: L starts as the sorted edge states and F as the sorted acceptance sets;
    * each round applies the pass for each acceptance set to the L the round started from
    * (the result of `inf` is overwritten straight away), until a round leaves L
    * unchanged. The answer is EMPTY exactly when the initial state is not in L. */
  method IsEmpty(ib: InvAutomaton) returns (empty: bool)
    requires ib.Valid()
    ensures empty <==> !ib.base.NonEmpty()
  {
    ghost var g, F0 := ib.base.trans, ib.base.finals[0];
    var L := SortedSets.SortedFromSet(ib.states);
    var F: seq<seq<nat>> := [];
    for i := 0 to |ib.base.finals|
      invariant |F| == i
      invariant forall j :: 0 <= j < i ==> SortedSets.Increasing(F[j]) && SortedSets.Elems(F[j]) == ib.base.finals[j]
    {
      var Fi := SortedSets.SortedFromSet(ib.base.finals[i]);
      F := F + [Fi];
    }
    StartFacts(g, F0);
    var done := false;
    while !done
      invariant SortedSets.Increasing(L)
      invariant LassoStates(g, F0) <= SortedSets.Elems(L) && Contracting(g, F0, SortedSets.Elems(L))
      invariant done ==> Expanding(g, F0, SortedSets.Elems(L))
      decreases !done, SortedSets.Elems(L)
    {
      var oldL := L;
      for i := 0 to |F|
        invariant SortedSets.Increasing(L)
        invariant i > 0 ==> SortedSets.Elems(L) == Pass(g, F0, SortedSets.Elems(oldL))
      {
        L := Inf(ib, oldL);
        var temp := SortedSets.SetIntersection(oldL, F[i]);
        L := Pre(ib, temp);
        L := BackwardBfs(ib, L);
      }
      OuterStep(g, F0, SortedSets.Elems(oldL), SortedSets.Elems(L));
      done := oldL == L;
      if !done && SortedSets.Elems(L) == SortedSets.Elems(oldL) {
        SortedSets.IncreasingUnique(L, oldL);
      }
    }
    GreatestFixpoint(g, F0, SortedSets.Elems(L));
    LassoInitial(ib.base);
    empty := InitialState !in L;
  }
}

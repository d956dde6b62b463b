/**
 * Nested depth-first search (`emptiness_check::dfs::nested`): an outer search
 * from the initial state and, each time the outer search finishes an
 * accepting state, an inner search from it looking for an edge back into the
 * current outer path. Only simple automata (K == 1) are supported.
 *
 * The visiting map S (two bits per state) is modelled as two sets: `outer`,
 * the states whose bit 0 is set (entered by `dfs1`), and `inner`, the states
 * whose bit 1 is set (entered by `dfs2`). P, the states on the current `dfs1`
 * call path, is a set. The containers are passed in and handed back, as the
 * source passes them by reference.
 */
module Nested {
  import opened Wrappers
  import opened Graphs
  import opened Buchi

  /** Every state the outer search has finished (entered, and no longer on the path) has
    * all its successors entered. */
  ghost predicate Finished(a: Automaton, outer: set<nat>, P: set<nat>)
  {
    forall x :: x in outer && x !in P ==> Succ(a.trans, x) <= outer
  }

  /** The states the inner searches have finished are closed under successors, and none
    * of them has a successor on the path. */
  ghost predicate RedClosed(a: Automaton, inner: set<nat>, outer: set<nat>, P: set<nat>)
  {
    inner <= outer && forall r :: r in inner ==> Succ(a.trans, r) <= inner && Succ(a.trans, r) !! P
  }

  /** No accepting state the outer search has finished lies on a cycle. */
  ghost predicate NoLassoBehind(a: Automaton, outer: set<nat>, P: set<nat>)
    requires |a.finals| == 1
  {
    forall x :: x in outer && x !in P && x in a.finals[0] ==> !ReachesPlus(a.trans, x, x)
  }

  /** A state on the path is on no cycle through the red states: its predecessors on a
    * cycle back to it would be red, and red states have no successor on the path. */
  lemma NoCycleThroughRed(a: Automaton, inner: set<nat>, outer: set<nat>, P: set<nat>, q: nat)
    requires RedClosed(a, inner, outer, P) && q in inner && q in P
    ensures !ReachesPlus(a.trans, q, q)
  {
    if ReachesPlus(a.trans, q, q) {
      var w := PlusLastEdge(a.trans, q, q);
      ClosedReach(a.trans, inner, q, w);
      assert false;
    }
  }

  /** `dfs2`: mark `q` for the inner search, then look at each successor: one on the
    * outer path closes a cycle through `seed` (NONEMPTY, `false`); an unmarked one is
    * searched recursively. `seed` is the accepting state the inner search started from. */
  method Dfs2(a: Automaton, q: nat, inner: set<nat>, P: set<nat>, ghost seed: nat, ghost outer: set<nat>)
    returns (ok: bool, inner': set<nat>)
    requires a.Valid() && |a.finals| == 1
    requires q in a.States() && inner <= a.States()
    requires seed in a.finals[0] && Reaches(a.trans, InitialState, seed) && Reaches(a.trans, seed, q)
    requires forall p :: p in P ==> Reaches(a.trans, p, seed)
    requires Finished(a, outer, P) && q in outer && Succ(a.trans, q) <= outer && inner <= outer
    ensures inner + {q} <= inner' <= a.States() && inner' <= outer
    ensures ok ==> Succ(a.trans, q) <= inner' && Succ(a.trans, q) !! P
    ensures ok ==> forall x :: x in inner' - inner ==> Succ(a.trans, x) <= inner' && Succ(a.trans, x) !! P
    ensures !ok ==> a.NonEmpty()
    decreases |a.States() - (inner + {q})|
  {
    inner' := inner + {q};
    var todo := Succ(a.trans, q);
    while todo != {}
      invariant todo <= Succ(a.trans, q)
      invariant inner + {q} <= inner' <= a.States() && inner' <= outer
      invariant forall r :: r in Succ(a.trans, q) - todo ==> r in inner' && r !in P
      invariant forall x :: x in inner' - (inner + {q}) ==> Succ(a.trans, x) <= inner' && Succ(a.trans, x) !! P
      decreases todo
    {
      var r :| r in todo;
      if r in P {
        CycleThroughEdge(a.trans, seed, q, r);
        SimpleNonEmpty(a, seed);
        return false, inner';
      }
      if r !in inner' {
        ReachesStep(a.trans, seed, q, r);
        MarkShrinks(a.States(), inner + {q}, inner' + {r}, r);
        var found;
        found, inner' := Dfs2(a, r, inner', P, seed, outer);
        if !found {
          return false, inner';
        }
      }
      todo := todo - {r};
    }
    return true, inner';
  }

  /** `dfs1`: mark `q` for the outer search and put it on the path, search every
    * successor not yet entered, then launch the inner search from `q` if it is
    * accepting, and take `q` off the path again. */
  method Dfs1(a: Automaton, q: nat, outer: set<nat>, inner: set<nat>, P: set<nat>)
    returns (ok: bool, outer': set<nat>, inner': set<nat>, P': set<nat>)
    requires a.Valid() && |a.finals| == 1
    requires q in a.States() && q !in outer
    requires outer <= a.States() && inner <= a.States() && P <= outer
    requires Reaches(a.trans, InitialState, q)
    requires forall p :: p in P ==> Reaches(a.trans, p, q)
    requires Finished(a, outer, P) && RedClosed(a, inner, outer, P) && NoLassoBehind(a, outer, P)
    ensures outer + {q} <= outer' <= a.States() && inner <= inner' <= a.States()
    ensures ok ==> P' == P
    ensures ok ==> Succ(a.trans, q) <= outer'
    ensures ok && q in a.finals[0] ==> q in inner'
    ensures ok ==> Finished(a, outer', P) && RedClosed(a, inner', outer', P) && NoLassoBehind(a, outer', P)
    ensures !ok ==> a.NonEmpty()
    decreases |a.States() - outer|
  {
    outer', inner', P' := outer + {q}, inner, P + {q};
    forall r | r in inner ensures Succ(a.trans, r) !! P' {
      assert q !in Succ(a.trans, r);
    }
    var todo := Succ(a.trans, q);
    while todo != {}
      invariant todo <= Succ(a.trans, q)
      invariant outer + {q} <= outer' <= a.States() && inner <= inner' <= a.States()
      invariant P' == P + {q} && P' <= outer'
      invariant forall r :: r in Succ(a.trans, q) - todo ==> r in outer'
      invariant Finished(a, outer', P') && RedClosed(a, inner', outer', P') && NoLassoBehind(a, outer', P')
      decreases todo
    {
      var r :| r in todo;
      if r !in outer' {
        ReachesStep(a.trans, InitialState, q, r);
        forall p | p in P' ensures Reaches(a.trans, p, r) {
          if p == q {
            ReachesEdge(a.trans, q, r);
          } else {
            ReachesStep(a.trans, p, q, r);
          }
        }
        MarkShrinks(a.States(), outer, outer', q);
        var found;
        found, outer', inner', P' := Dfs1(a, r, outer', inner', P');
        if !found {
          return false, outer', inner', P';
        }
      }
      todo := todo - {r};
    }
    var accepting := IsFinal(a, q, None);
    if accepting {
      ReachesRefl(a.trans, q);
      var found;
      found, inner' := Dfs2(a, q, inner', P', q, outer');
      if !found {
        return false, outer', inner', P';
      }
      NoCycleThroughRed(a, inner', outer', P', q);
    }
    P' := P' - {q};
    return true, outer', inner', P';
  }

  /** `is_empty`: the outer search from the initial state with S and P empty. `false`
    * (a lasso was found) means the language is non-empty. */
  method IsEmpty(a: Automaton) returns (empty: bool)
    requires a.Valid() && !a.IsGeneralized()
    ensures empty <==> !a.NonEmpty()
  {
    ReachesRefl(a.trans, InitialState);
    var S0, S1, P;
    empty, S0, S1, P := Dfs1(a, InitialState, {}, {}, {});
    if empty && a.NonEmpty() {
      var f := SimpleNonEmptyWitness(a);
      ClosedReach(a.trans, S0, InitialState, f);
      assert false;
    }
  }
}

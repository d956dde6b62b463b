/**
 * `nga2nba`: the conversion of a generalized Büchi automaton (K > 1 acceptance
 * sets) into a simple one, by the counting product over pairs (state, counter)
 * with the counter in [0, K), explored with a worklist from (0, 0), followed by
 * `decode_paired_states`, which renumbers the explored pairs as plain states.
 */
module Converters {
  import opened Wrappers
  import opened Graphs
  import opened Buchi
  import Uint32

  /** A product state: an original state and a counter in [0, K). */
  type Pair = (nat, nat)

  /** The start pair (0, 0). */
  const StartPair: Pair := (InitialState, 0)

  /** The counter after leaving `q` with counter `i`: it advances (mod K) exactly
    * when `q` is in the acceptance set the counter is waiting for. */
  function Next(a: Automaton, q: nat, i: nat): (n: nat)
    requires |a.finals| > 0 && i < |a.finals|
    ensures n < |a.finals|
  {
    if a.InFinalSet(q, i) then (i + 1) % |a.finals| else i
  }

  /** The product successors of a pair: every original successor, with the next counter. */
  function PairSucc(a: Automaton, p: Pair): (r: set<Pair>)
    requires |a.finals| > 0 && p.1 < |a.finals|
    ensures forall t, n :: (t, n) in r <==> t in Succ(a.trans, p.0) && n == Next(a, p.0, p.1)
  {
    set t | t in Succ(a.trans, p.0) :: (t, Next(a, p.0, p.1))
  }

  /** All pairs of the given states with counters below `k`. */
  function PairsOver(states: set<nat>, k: nat): (r: set<Pair>)
    ensures forall p :: p in r <==> p.0 in states && p.1 < k
  {
    set q, i | q in states && 0 <= i < k :: (q, i)
  }

  /** Every pair the product can mention. */
  function Universe(a: Automaton): set<Pair>
  {
    PairsOver(a.States(), |a.finals|)
  }

  /** The counting product as a transition table over pairs. */
  function Product(a: Automaton): Graph<Pair>
    requires |a.finals| > 0
  {
    map p | p in Universe(a) :: PairSucc(a, p)
  }

  /** The pairs reachable from the start pair in the product. */
  ghost function ReachablePairs(a: Automaton): set<Pair>
    requires |a.finals| > 0
  {
    set p | p in Universe(a) && Reaches(Product(a), StartPair, p)
  }

  /** A pair of the universe reachable from the start pair is a reachable pair. */
  lemma InReachablePairs(a: Automaton, p: Pair)
    requires |a.finals| > 0 && p in Universe(a) && Reaches(Product(a), StartPair, p)
    ensures p in ReachablePairs(a)
  {
  }

  lemma {:induction false} RowCard(q: nat, k: nat)
    ensures |PairsOver({q}, k)| == k
  {
    if k > 0 {
      RowCard(q, k - 1);
      assert PairsOver({q}, k) == PairsOver({q}, k - 1) + {(q, k - 1)};
    } else {
      assert PairsOver({q}, k) == {};
    }
  }

  /** There are exactly |states| * k pairs over `states`. */
  lemma {:induction false} PairsOverCard(states: set<nat>, k: nat)
    ensures |PairsOver(states, k)| == |states| * k
    decreases |states|
  {
    if states == {} {
      assert PairsOver(states, k) == {};
    } else {
      var q :| q in states;
      var rest := PairsOver(states - {q}, k);
      var row := PairsOver({q}, k);
      PairsOverCard(states - {q}, k);
      RowCard(q, k);
      assert PairsOver(states, k) == rest + row;
      assert rest * row == {};
      assert |rest + row| == |rest| + |row|;
      assert |states| == |states - {q}| + 1;
      Uint32.MulSucc(|states - {q}|, k);
    }
  }

  /** The queue part of the inner loop's invariant: the successors already handled
    * (those of `pair.0` outside `succ`) are explored or queued, and only unexplored
    * product successors were queued. */
  ghost predicate QueueInv(a: Automaton, pair: Pair, Q: set<Pair>, succ: set<nat>, pushed: seq<Pair>)
    requires a.Valid() && pair.1 < |a.finals| && pair.0 in a.trans
  {
    && (forall x :: x in pushed ==> x !in Q && x in PairSucc(a, pair))
    && (forall t :: t in a.trans[pair.0] && t !in succ ==>
          (t, Next(a, pair.0, pair.1)) in Q || (t, Next(a, pair.0, pair.1)) in pushed)
  }

  /** The table part of the inner loop's invariant: only the row of `pair` changes, and
    * it holds what it held plus the product edges of the successors already handled. */
  ghost predicate RowInv(a: Automaton, pair: Pair, delta: map<Pair, set<Pair>>, succ: set<nat>,
                         delta': map<Pair, set<Pair>>)
    requires a.Valid() && pair.1 < |a.finals| && pair.0 in a.trans
  {
    && (forall p :: p != pair ==> (p in delta' <==> p in delta))
    && (forall p :: p in delta' && p != pair ==> delta'[p] == delta[p])
    && (succ == a.trans[pair.0] ==> delta' == delta)
    && (succ != a.trans[pair.0] ==> pair in delta')
    && (pair in delta' ==> forall y :: y in delta'[pair] <==>
          y in Succ(delta, pair) || (y.1 == Next(a, pair.0, pair.1) && y.0 in a.trans[pair.0] && y.0 !in succ))
  }

  /** Handling successor `t` keeps the queue part of the invariant. */
  lemma QueueStep(a: Automaton, pair: Pair, Q: set<Pair>, succ: set<nat>, pushed: seq<Pair>,
                  t: nat, pushed': seq<Pair>)
    requires a.Valid() && pair.1 < |a.finals| && pair.0 in a.trans
    requires QueueInv(a, pair, Q, succ, pushed) && t in succ && succ <= a.trans[pair.0]
    requires var np := (t, Next(a, pair.0, pair.1));
      pushed' == if np !in Q then pushed + [np] else pushed
    ensures QueueInv(a, pair, Q, succ - {t}, pushed')
  {
    assert (t, Next(a, pair.0, pair.1)) in PairSucc(a, pair);
  }

  /** Handling successor `t` keeps the table part of the invariant. */
  lemma RowStep(a: Automaton, pair: Pair, delta: map<Pair, set<Pair>>, succ: set<nat>,
                delta': map<Pair, set<Pair>>, t: nat)
    requires a.Valid() && pair.1 < |a.finals| && pair.0 in a.trans
    requires RowInv(a, pair, delta, succ, delta') && t in succ && succ <= a.trans[pair.0]
    ensures var np := (t, Next(a, pair.0, pair.1));
      RowInv(a, pair, delta, succ - {t}, delta'[pair := (if pair in delta' then delta'[pair] else {}) + {np}])
  {
  }

  /** The inner loop of `nga2nba` for one popped pair: one product edge per original
    * successor of its state, queueing each target that is not yet in Q. */
  method AddSuccessors(a: Automaton, pair: Pair, Q: set<Pair>, W: seq<Pair>, delta: map<Pair, set<Pair>>)
    returns (W': seq<Pair>, delta': map<Pair, set<Pair>>, ghost pushed: seq<Pair>)
    requires a.Valid() && pair.1 < |a.finals|
    requires forall p :: p in delta ==> p.1 < |a.finals| && delta[p] == PairSucc(a, p)
    ensures W' == W + pushed
    ensures forall x :: x in pushed ==> x !in Q && x in PairSucc(a, pair)
    ensures forall y :: y in PairSucc(a, pair) ==> y in Q || y in pushed
    ensures forall p :: p in delta' <==> p in delta || (p == pair && PairSucc(a, pair) != {})
    ensures forall p :: p in delta' ==> p.1 < |a.finals| && delta'[p] == PairSucc(a, p)
  {
    W', delta', pushed := W, delta, [];
    if pair.0 !in a.trans {
      assert PairSucc(a, pair) == {};
      return;
    }
    var succ := a.trans[pair.0];
    while succ != {}
      invariant succ <= a.trans[pair.0]
      invariant W' == W + pushed
      invariant QueueInv(a, pair, Q, succ, pushed)
      invariant RowInv(a, pair, delta, succ, delta')
      decreases succ
    {
      var t :| t in succ;
      var fin := IsFinal(a, pair.0, Some(pair.1));
      var np: Pair := (t, if fin then (pair.1 + 1) % |a.finals| else pair.1);
      assert np == (t, Next(a, pair.0, pair.1));
      QueueStep(a, pair, Q, succ, pushed, t, if np !in Q then pushed + [np] else pushed);
      RowStep(a, pair, delta, succ, delta', t);
      if np !in Q {
        W' := W' + [np];
        pushed := pushed + [np];
      }
      delta' := delta'[pair := (if pair in delta' then delta'[pair] else {}) + {np}];
      succ := succ - {t};
    }
    AddSuccessorsDone(a, pair, Q, pushed, delta, delta'[pair]);
  }

  /** Once every original successor is handled, the row of `pair` is its product
    * successor set and every successor is explored or queued. */
  lemma AddSuccessorsDone(a: Automaton, pair: Pair, Q: set<Pair>, pushed: seq<Pair>,
                          delta: map<Pair, set<Pair>>, row: set<Pair>)
    requires a.Valid() && pair.1 < |a.finals| && pair.0 in a.trans
    requires forall p :: p in delta ==> p.1 < |a.finals| && delta[p] == PairSucc(a, p)
    requires forall t :: t in a.trans[pair.0] ==> (t, Next(a, pair.0, pair.1)) in Q || (t, Next(a, pair.0, pair.1)) in pushed
    requires forall y :: y in row <==>
      y in Succ(delta, pair) || (y.1 == Next(a, pair.0, pair.1) && y.0 in a.trans[pair.0])
    ensures forall y :: y in PairSucc(a, pair) ==> y in Q || y in pushed
    ensures PairSucc(a, pair) != {} && row == PairSucc(a, pair)
  {
    var n := Next(a, pair.0, pair.1);
    forall y | y in PairSucc(a, pair) ensures y in Q || y in pushed {
      assert y == (y.0, n);
    }
    var t :| t in a.trans[pair.0];
    assert (t, n) in PairSucc(a, pair);
    assert forall y :: y in row <==> y in PairSucc(a, pair);
  }

  /** Every successor of an explored pair is explored or still queued. */
  ghost predicate ClosedUpTo(a: Automaton, Q: set<Pair>, W: seq<Pair>)
    requires a.Valid() && Q <= Universe(a)
  {
    forall p :: p in Q ==> forall y :: y in PairSucc(a, p) ==> y in Q || y in W
  }

  /** The search part of the worklist invariant of `nga2nba`: explored and queued pairs
    * are reachable pairs of the universe, the start pair is explored or is the whole
    * queue, and every successor of an explored pair is explored or queued. */
  ghost predicate SearchInv(a: Automaton, Q: set<Pair>, W: seq<Pair>)
    requires a.Valid()
  {
    && Q <= Universe(a)
    && (forall x :: x in W ==> x in Universe(a) && Reaches(Product(a), StartPair, x))
    && (forall p :: p in Q ==> Reaches(Product(a), StartPair, p))
    && (StartPair in Q || W == [StartPair])
    && ClosedUpTo(a, Q, W)
  }

  /** The table part of the worklist invariant: F holds the explored pairs (q, 0) with
    * q in F_0, and delta the product successors of every explored pair that has some. */
  ghost predicate TablesInv(a: Automaton, Q: set<Pair>, F: set<Pair>, delta: map<Pair, set<Pair>>)
    requires a.Valid() && Q <= Universe(a)
  {
    && (forall p :: p in F <==> p in Q && p.1 == 0 && p.0 in a.finals[0])
    && (forall p :: p in delta <==> p in Q && PairSucc(a, p) != {})
    && (forall p :: p in delta ==> p.1 < |a.finals| && delta[p] == PairSucc(a, p))
  }

  /** Queued successors of a reachable pair are reachable. */
  lemma StepReach(a: Automaton, pair: Pair, pushed: seq<Pair>)
    requires a.Valid() && pair in Universe(a) && Reaches(Product(a), StartPair, pair)
    requires forall x :: x in pushed ==> x in PairSucc(a, pair)
    ensures forall x :: x in pushed ==> x in Universe(a) && Reaches(Product(a), StartPair, x)
  {
    var P := Product(a);
    forall x | x in pushed ensures x in Universe(a) && Reaches(P, StartPair, x) {
      assert x in P[pair];
      ReachesStep(P, StartPair, pair, x);
    }
  }

  /** Popping a pair and queueing its unexplored successors keeps the closure property. */
  lemma StepClosed(a: Automaton, Q: set<Pair>, W: seq<Pair>, pushed: seq<Pair>)
    requires a.Valid() && W != [] && Q + {W[0]} <= Universe(a)
    requires ClosedUpTo(a, Q, W)
    requires forall y :: y in PairSucc(a, W[0]) ==> y in Q + {W[0]} || y in pushed
    ensures ClosedUpTo(a, Q + {W[0]}, W[1..] + pushed)
  {
    var W' := W[1..] + pushed;
    forall p | p in Q + {W[0]} ensures forall y :: y in PairSucc(a, p) ==> y in Q + {W[0]} || y in W' {
      if p != W[0] {
        forall y | y in PairSucc(a, p) ensures y in Q + {W[0]} || y in W' {
          assert y in W ==> y == W[0] || y in W[1..];
        }
      }
    }
  }

  /** The worklist measure decreases: a new pair shrinks the unexplored part of the
    * universe; a repeated pair removes one already-explored queue entry and adds none. */
  lemma StepMeasure(U: set<Pair>, Q: set<Pair>, W: seq<Pair>, pushed: seq<Pair>)
    requires W != [] && W[0] in U
    requires forall x :: x in pushed ==> x !in Q + {W[0]}
    ensures var Q' := Q + {W[0]};
      |U - Q'| < |U - Q| || (|U - Q'| == |U - Q| && CountIn(W[1..] + pushed, Q') < CountIn(W, Q))
  {
    var Q' := Q + {W[0]};
    if W[0] in Q {
      assert Q' == Q;
      CountInNone(pushed, Q);
      CountInAppend(W[1..], pushed, Q);
    } else {
      assert U - Q == (U - Q') + {W[0]};
      assert W[0] !in U - Q';
    }
  }

  /** One iteration of the worklist loop keeps the search invariant. */
  lemma SearchStep(a: Automaton, Q: set<Pair>, W: seq<Pair>, pushed: seq<Pair>)
    requires a.Valid() && W != [] && SearchInv(a, Q, W)
    requires forall x :: x in pushed ==> x !in Q + {W[0]} && x in PairSucc(a, W[0])
    requires forall y :: y in PairSucc(a, W[0]) ==> y in Q + {W[0]} || y in pushed
    ensures SearchInv(a, Q + {W[0]}, W[1..] + pushed)
  {
    assert W[0] in W;
    StepReach(a, W[0], pushed);
    StepClosed(a, Q, W, pushed);
    StepQueue(a, W, pushed);
  }

  /** One iteration of the worklist loop keeps the table invariant. */
  lemma TablesStep(a: Automaton, Q: set<Pair>, F: set<Pair>, delta: map<Pair, set<Pair>>, pair: Pair,
                   F': set<Pair>, delta': map<Pair, set<Pair>>)
    requires a.Valid() && Q + {pair} <= Universe(a) && TablesInv(a, Q, F, delta)
    requires F' == if pair.1 == 0 && pair.0 in a.finals[0] then F + {pair} else F
    requires forall p :: p in delta' <==> p in delta || (p == pair && PairSucc(a, pair) != {})
    requires forall p :: p in delta' ==> p.1 < |a.finals| && delta'[p] == PairSucc(a, p)
    ensures TablesInv(a, Q + {pair}, F', delta')
  {
    var Q' := Q + {pair};
    assert forall p :: p in F' <==> p in Q' && p.1 == 0 && p.0 in a.finals[0] by {
      forall p ensures p in F' <==> p in Q' && p.1 == 0 && p.0 in a.finals[0] {
        assert p in Q' <==> p in Q || p == pair;
      }
    }
    assert forall p :: p in delta' <==> p in Q' && PairSucc(a, p) != {} by {
      forall p ensures p in delta' <==> p in Q' && PairSucc(a, p) != {} {
        assert p in Q' <==> p in Q || p == pair;
      }
    }
  }

  /** The queue after one iteration holds only reachable pairs of the universe. */
  lemma StepQueue(a: Automaton, W: seq<Pair>, pushed: seq<Pair>)
    requires a.Valid() && W != []
    requires forall x :: x in W ==> x in Universe(a) && Reaches(Product(a), StartPair, x)
    requires forall x :: x in pushed ==> x in Universe(a) && Reaches(Product(a), StartPair, x)
    ensures forall x :: x in W[1..] + pushed ==> x in Universe(a) && Reaches(Product(a), StartPair, x)
  {
    assert forall x :: x in W[1..] + pushed ==> x in W[1..] || x in pushed;
    assert forall x :: x in W[1..] ==> x in W;
  }

  /** The worklist loop of `nga2nba`: pop a pair, record it in Q (and in F when its
    * state is in F_0 and its counter is 0), then expand it. The queue may hold repeats. */
  method Explore(a: Automaton) returns (Q: set<Pair>, F: set<Pair>, delta: map<Pair, set<Pair>>)
    requires a.Valid()
    ensures StartPair in Q && Q <= Universe(a)
    ensures |Q| <= |a.States()| * |a.finals|
    ensures forall p :: p in Q ==> Reaches(Product(a), StartPair, p)
    ensures forall p :: p in Q ==> p.1 < |a.finals| && PairSucc(a, p) <= Q
    ensures forall p :: p in F <==> p in Q && p.1 == 0 && p.0 in a.finals[0]
    ensures forall p :: p in delta <==> p in Q && PairSucc(a, p) != {}
    ensures forall p :: p in delta ==> delta[p] == PairSucc(a, p)
  {
    ghost var U := Universe(a);
    Q, F, delta := {}, {}, map[];
    var W: seq<Pair> := [StartPair];
    ReachesRefl(Product(a), StartPair);
    while W != []
      invariant SearchInv(a, Q, W)
      invariant TablesInv(a, Q, F, delta)
      decreases |U - Q|, CountIn(W, Q)
    {
      var pair: Pair := W[0];
      var fin := IsFinal(a, pair.0, Some(0));
      var F' := if fin && pair.1 == 0 then F + {pair} else F;
      var W', delta', pushed := AddSuccessors(a, pair, Q + {pair}, W[1..], delta);
      SearchStep(a, Q, W, pushed);
      TablesStep(a, Q, F, delta, pair, F', delta');
      StepMeasure(U, Q, W, pushed);
      Q, F, delta, W := Q + {pair}, F', delta', W';
    }
    ClosedAtEnd(a, Q);
    PairsOverCard(a.States(), |a.finals|);
  }

  /** With the queue empty, the explored set is closed under product successors. */
  lemma ClosedAtEnd(a: Automaton, Q: set<Pair>)
    requires a.Valid() && Q <= Universe(a) && ClosedUpTo(a, Q, [])
    ensures forall p :: p in Q ==> p.1 < |a.finals| && PairSucc(a, p) <= Q
  {
    forall p | p in Q ensures p.1 < |a.finals| && PairSucc(a, p) <= Q {
      assert p in Universe(a);
      forall y | y in PairSucc(a, p) ensures y in Q {
        assert y in Q || y in [];
      }
    }
  }

  /** The explored set is exactly the set of pairs reachable from the start pair. */
  lemma ExploredIsReachable(a: Automaton, Q: set<Pair>)
    requires a.Valid()
    requires StartPair in Q && Q <= Universe(a)
    requires forall p :: p in Q ==> Reaches(Product(a), StartPair, p)
    requires forall p :: p in Q ==> p.1 < |a.finals| && PairSucc(a, p) <= Q
    ensures Q == ReachablePairs(a)
  {
    var P := Product(a);
    forall z | z in Q ensures Succ(P, z) <= Q {
    }
    forall p | p in ReachablePairs(a) ensures p in Q {
      ClosedReach(P, Q, StartPair, p);
    }
  }

  // ------------------------------------------------------------ renumbering

  /** No pair listed twice: the iteration order of an unordered set. */
  predicate Distinct(s: seq<Pair>)
  {
    forall i, j :: 0 <= i < j < |s| ==> s[i] != s[j]
  }

  /** Iterating over an unordered set: its members in some order, each once. */
  method Enumerate(s: set<Pair>) returns (order: seq<Pair>)
    ensures Distinct(order) && |order| == |s|
    ensures forall x :: x in order <==> x in s
  {
    order := [];
    var left := s;
    while left != {}
      invariant left <= s
      invariant Distinct(order) && |order| + |left| == |s|
      invariant forall x :: x in order <==> x in s && x !in left
      decreases left
    {
      var x :| x in left;
      order := order + [x];
      left := left - {x};
    }
  }

  /** How many of the first `k` pairs of `s` are other than `q0`. */
  function Rank(s: seq<Pair>, q0: Pair, k: nat): nat
    requires k <= |s|
  {
    if k == 0 then 0 else Rank(s, q0, k - 1) + (if s[k - 1] != q0 then 1 else 0)
  }

  /** In a list without repeats every pair but `q0` counts. */
  lemma {:induction false} RankDistinct(s: seq<Pair>, q0: Pair, k: nat)
    requires Distinct(s) && k <= |s|
    ensures Rank(s, q0, k) == k - (if q0 in s[..k] then 1 else 0)
    decreases k
  {
    if k > 0 {
      RankDistinct(s, q0, k - 1);
      assert forall x :: x in s[..k] <==> x in s[..k - 1] || x == s[k - 1];
      forall i | 0 <= i < k - 1 ensures s[i] != s[k - 1] {
      }
    }
  }

  /** The id the source gives the non-start pair that comes after `rank` other
    * non-start pairs: `state_num == 0 ? ++state_num : state_num++`. */
  function AsWrittenId(rank: nat): nat
  {
    if rank == InitialState then rank + 1 else rank
  }

  /** The first `j` pairs of `order` are numbered: the keys of `dict`, with `q0` as 0. */
  ghost predicate NumberedUpTo(order: seq<Pair>, q0: Pair, j: nat, dict: map<Pair, nat>)
    requires j <= |order|
  {
    && (forall p :: p in dict <==> p in order[..j])
    && (q0 in order[..j] ==> dict[q0] == InitialState)
  }

  /** The ids the as-written loop has handed out to the non-start pairs among the
    * first `j` pairs of `order`. */
  ghost predicate AsWrittenUpTo(order: seq<Pair>, q0: Pair, j: nat, dict: map<Pair, nat>)
    requires j <= |order|
  {
    forall k {:trigger dict[order[k]]} :: 0 <= k < j && order[k] != q0 ==>
      order[k] in dict && dict[order[k]] == AsWrittenId(Rank(order, q0, k))
  }

  /** Numbering the next pair extends `NumberedUpTo` by one position. */
  lemma NumberedStep(order: seq<Pair>, q0: Pair, j: nat, dict: map<Pair, nat>, id: nat)
    requires j < |order| && NumberedUpTo(order, q0, j, dict)
    requires order[j] == q0 ==> id == InitialState
    ensures NumberedUpTo(order, q0, j + 1, dict[order[j] := id])
  {
    assert forall x :: x in order[..j + 1] <==> x in order[..j] || x == order[j];
  }

  /** Numbering the next pair extends `AsWrittenUpTo` by one position. */
  lemma AsWrittenStep(order: seq<Pair>, q0: Pair, j: nat, dict: map<Pair, nat>, id: nat)
    requires Distinct(order) && j < |order| && AsWrittenUpTo(order, q0, j, dict)
    requires order[j] != q0 ==> id == AsWrittenId(Rank(order, q0, j))
    ensures AsWrittenUpTo(order, q0, j + 1, dict[order[j] := id])
  {
    var d := dict[order[j] := id];
    forall k | 0 <= k < j + 1 && order[k] != q0
      ensures order[k] in d && d[order[k]] == AsWrittenId(Rank(order, q0, k))
    {
      if k < j {
        assert order[k] != order[j];
      }
    }
  }

  /** The renumbering loop of `decode_paired_states` as written: the start pair gets 0,
    * and the counter skips 0 by a pre-increment once, then post-increments, so the first
    * two non-start pairs share id 1. */
  method NumberPairsAsWritten(order: seq<Pair>, q0: Pair) returns (dict: map<Pair, nat>)
    requires Distinct(order)
    ensures forall p :: p in dict <==> p in order
    ensures q0 in order ==> dict[q0] == InitialState
    ensures forall j {:trigger dict[order[j]]} :: 0 <= j < |order| && order[j] != q0 ==>
      dict[order[j]] == AsWrittenId(Rank(order, q0, j))
  {
    dict := map[];
    var stateNum := 0;
    for j := 0 to |order|
      invariant stateNum == Rank(order, q0, j)
      invariant NumberedUpTo(order, q0, j, dict)
      invariant AsWrittenUpTo(order, q0, j, dict)
    {
      var id;
      if order[j] == q0 {
        id := InitialState;
      } else if stateNum == InitialState {
        stateNum := stateNum + 1;
        id := stateNum;
      } else {
        id := stateNum;
        stateNum := stateNum + 1;
      }
      NumberedStep(order, q0, j, dict, id);
      AsWrittenStep(order, q0, j, dict, id);
      dict := dict[order[j] := id];
    }
    assert order[..|order|] == order;
  }

  /** The first of the first `k` pairs that is other than `q0` comes after none. */
  lemma {:induction false} FirstOther(s: seq<Pair>, q0: Pair, k: nat) returns (j: nat)
    requires k <= |s| && Rank(s, q0, k) >= 1
    ensures j < k && s[j] != q0 && Rank(s, q0, j) == 0
    decreases k
  {
    if Rank(s, q0, k - 1) >= 1 {
      j := FirstOther(s, q0, k - 1);
    } else {
      j := k - 1;
    }
  }

  /** Among the first `k` pairs, two or more other than `q0` get colliding as-written ids. */
  lemma {:induction false} AsWrittenCollides(s: seq<Pair>, q0: Pair, k: nat) returns (j1: nat, j2: nat)
    requires k <= |s| && Rank(s, q0, k) >= 2
    ensures j1 < j2 < k && s[j1] != q0 && s[j2] != q0
    ensures AsWrittenId(Rank(s, q0, j1)) == AsWrittenId(Rank(s, q0, j2))
    decreases k
  {
    if Rank(s, q0, k - 1) >= 2 {
      j1, j2 := AsWrittenCollides(s, q0, k - 1);
    } else {
      j1 := FirstOther(s, q0, k - 1);
      j2 := k - 1;
    }
  }

  /** The as-written numbering is not injective once two pairs other than the start
    * pair are numbered: the first two of them both get id 1. */
  lemma AsWrittenNotInjective(order: seq<Pair>, q0: Pair, dict: map<Pair, nat>)
    requires Distinct(order) && Rank(order, q0, |order|) >= 2
    requires forall p :: p in dict <==> p in order
    requires forall j {:trigger dict[order[j]]} :: 0 <= j < |order| && order[j] != q0 ==>
      dict[order[j]] == AsWrittenId(Rank(order, q0, j))
    ensures exists p, p' :: p in dict && p' in dict && p != p' && dict[p] == dict[p']
  {
    var j1, j2 := AsWrittenCollides(order, q0, |order|);
    assert order[j1] in dict && order[j2] in dict;
    assert dict[order[j1]] == dict[order[j2]];
  }

  /** The intended renumbering: the start pair gets 0 and the others 1, 2, 3, ... in
    * iteration order, which is what `++state_num` for every non-start pair gives. */
  method NumberPairs(order: seq<Pair>, q0: Pair) returns (dict: map<Pair, nat>)
    requires Distinct(order)
    ensures forall p :: p in dict <==> p in order
    ensures q0 in order ==> dict[q0] == InitialState
    ensures forall p :: p in dict && p != q0 ==> dict[p] != InitialState
    ensures forall p, p' :: p in dict && p' in dict && p != p' ==> dict[p] != dict[p']
    ensures q0 in order ==> forall p :: p in dict ==> dict[p] < |order|
  {
    dict := map[];
    var stateNum := 0;
    for j := 0 to |order|
      invariant forall p :: p in dict <==> p in order[..j]
      invariant stateNum == Rank(order, q0, j)
      invariant q0 in order[..j] ==> dict[q0] == InitialState
      invariant forall p :: p in dict && p != q0 ==> 1 <= dict[p] <= stateNum
      invariant forall p, p' :: p in dict && p' in dict && p != p' ==> dict[p] != dict[p']
    {
      assert forall x :: x in order[..j + 1] <==> x in order[..j] || x == order[j];
      assert order[j] !in order[..j];
      if order[j] == q0 {
        dict := dict[order[j] := InitialState];
      } else {
        stateNum := stateNum + 1;
        dict := dict[order[j] := stateNum];
      }
    }
    assert order[..|order|] == order;
    RankDistinct(order, q0, |order|);
  }

  /** No two pairs share an id. */
  ghost predicate Injective(d: map<Pair, nat>)
  {
    forall p, p' {:trigger d[p], d[p']} :: p in d && p' in d && p != p' ==> d[p] != d[p']
  }

  /** `dict` renames exactly the pairs of `Q`, injectively into [0, |Q|) (hence onto
    * it), with `q0` as 0. */
  ghost predicate IsRenaming(dict: map<Pair, nat>, Q: set<Pair>, q0: Pair)
  {
    && dict.Keys == Q
    && q0 in Q && dict[q0] == InitialState
    && Injective(dict)
    && (forall p :: p in Q ==> dict[p] < |Q|)
  }

  /** The ids of a set of pairs. */
  function Image(d: map<Pair, nat>, s: set<Pair>): set<nat>
    requires s <= d.Keys
  {
    set u | u in s :: d[u]
  }

  /** The rows of `delta` for the sources in `done`, with every pair renamed by `d`. */
  function RenamedTable(d: map<Pair, nat>, delta: map<Pair, set<Pair>>, done: set<Pair>): map<nat, set<nat>>
    requires Injective(d) && done <= delta.Keys
    requires forall p :: p in delta ==> p in d && delta[p] <= d.Keys
  {
    map u | u in done :: d[u] := Image(d, delta[u])
  }

  /** An injective renaming keeps membership: a pair is in `s` exactly when its id is
    * among the ids of `s`. */
  lemma ImageMember(d: map<Pair, nat>, s: set<Pair>)
    requires Injective(d) && s <= d.Keys
    ensures forall p :: p in d ==> (d[p] in Image(d, s) <==> p in s)
  {
    forall p | p in d && d[p] in Image(d, s) ensures p in s {
      var u :| u in s && d[u] == d[p];
    }
  }

  /** Adding one pair adds its id. */
  lemma ImageAdd(d: map<Pair, nat>, s: set<Pair>, u: Pair)
    requires s <= d.Keys && u in d
    ensures Image(d, s + {u}) == Image(d, s) + {d[u]}
  {
  }

  /** The renamed table has exactly the renamed edges of `delta`. */
  lemma RenamedTableEdges(d: map<Pair, nat>, delta: map<Pair, set<Pair>>)
    requires Injective(d)
    requires forall p :: p in delta ==> p in d && delta[p] <= d.Keys
    ensures var T := RenamedTable(d, delta, delta.Keys);
      forall p, p' :: p in d && p' in d ==> (d[p] in T && d[p'] in T[d[p]] <==> p in delta && p' in delta[p])
  {
    var T := RenamedTable(d, delta, delta.Keys);
    forall p, p' | p in d && p' in d
      ensures d[p] in T && d[p'] in T[d[p]] <==> p in delta && p' in delta[p]
    {
      if p in delta {
        assert d[p] in T;
        ImageMember(d, delta[p]);
      }
      if d[p] in T {
        var u :| u in delta && d[u] == d[p];
        assert u == p;
      }
    }
  }

  /** The row of a source's id is the source's row, renamed. */
  lemma RenamedRow(d: map<Pair, nat>, delta: map<Pair, set<Pair>>, u: Pair)
    requires Injective(d)
    requires forall p :: p in delta ==> p in d && delta[p] <= d.Keys
    requires u in delta
    ensures var T := RenamedTable(d, delta, delta.Keys); d[u] in T && T[d[u]] == Image(d, delta[u])
  {
  }

  /** Every id the renamed table mentions is the id of a pair of `Q`, when `Q` holds
    * the sources and targets of `delta`. */
  lemma RenamedTableWithin(d: map<Pair, nat>, delta: map<Pair, set<Pair>>, Q: set<Pair>)
    requires Injective(d) && Q <= d.Keys
    requires forall p :: p in delta ==> p in Q && delta[p] <= Q
    ensures var T := RenamedTable(d, delta, delta.Keys);
      T.Keys <= Image(d, Q) && forall x :: x in T ==> T[x] <= Image(d, Q)
  {
    var T := RenamedTable(d, delta, delta.Keys);
    forall x | x in T ensures x in Image(d, Q) && T[x] <= Image(d, Q) {
      var u :| u in delta && d[u] == x;
      RenamedRow(d, delta, u);
    }
  }

  /** The renamed table is empty only when `delta` is, and has no empty row when
    * `delta` has none. */
  lemma RenamedTableRows(d: map<Pair, nat>, delta: map<Pair, set<Pair>>)
    requires Injective(d)
    requires forall p :: p in delta ==> p in d && delta[p] != {} && delta[p] <= d.Keys
    ensures var T := RenamedTable(d, delta, delta.Keys);
      (T == map[] <==> delta == map[]) && forall x :: x in T ==> T[x] != {}
  {
    var T := RenamedTable(d, delta, delta.Keys);
    if delta != map[] {
      var p :| p in delta;
      assert d[p] in T;
    }
    forall x | x in T ensures T[x] != {} {
      var u :| u in delta && d[u] == x;
      var v :| v in delta[u];
      assert d[v] in Image(d, delta[u]);
    }
  }

  /** Renaming one more row: its id is new to the table, and the table gains that row. */
  lemma RenamedTableGrow(d: map<Pair, nat>, delta: map<Pair, set<Pair>>, done: set<Pair>, p: Pair)
    requires Injective(d) && done <= delta.Keys && p in delta && p !in done
    requires forall p :: p in delta ==> p in d && delta[p] <= d.Keys
    ensures d[p] !in RenamedTable(d, delta, done)
    ensures RenamedTable(d, delta, done + {p}) == RenamedTable(d, delta, done)[d[p] := Image(d, delta[p])]
  {
    var T := RenamedTable(d, delta, done);
    var T' := RenamedTable(d, delta, done + {p});
    forall u | u in done ensures d[u] != d[p] {
      assert u != p;
    }
    forall x | x in T' ensures x in T || x == d[p] {
      var u :| u in done + {p} && d[u] == x;
    }
    assert T'.Keys == T.Keys + {d[p]};
  }

  /** The accepting pairs renamed (the `new_F` loop). */
  method RenameSet(d: map<Pair, nat>, F: set<Pair>) returns (r: set<nat>)
    requires F <= d.Keys
    ensures r == Image(d, F)
  {
    r := {};
    var left := F;
    while left != {}
      invariant left <= F
      invariant r == Image(d, F - left)
      decreases left
    {
      var p :| p in left;
      assert F - (left - {p}) == (F - left) + {p};
      r := r + {d[p]};
      left := left - {p};
    }
    assert F - left == F;
  }

  /** The successors of one pair renamed and inserted into the row of its id (the inner
    * `new_delta` loop; indexing creates the row when it is missing). */
  method RenameRow(d: map<Pair, nat>, p: Pair, succ: set<Pair>, t: map<nat, set<nat>>) returns (t': map<nat, set<nat>>)
    requires p in d && succ <= d.Keys && succ != {}
    ensures t' == t[d[p] := (if d[p] in t then t[d[p]] else {}) + Image(d, succ)]
  {
    var x := d[p];
    var row0 := if x in t then t[x] else {};
    t' := t;
    var left := succ;
    while left != {}
      invariant left <= succ
      invariant left == succ ==> t' == t
      invariant left != succ ==> t' == t[x := row0 + Image(d, succ - left)]
      decreases left
    {
      var u :| u in left;
      assert succ - (left - {u}) == (succ - left) + {u};
      ImageAdd(d, succ - left, u);
      assert left == succ ==> Image(d, succ - left) == {};
      assert (if x in t' then t'[x] else {}) == row0 + Image(d, succ - left);
      ghost var row := row0 + Image(d, succ - left);
      assert row + {d[u]} == row0 + Image(d, (succ - left) + {u});
      assert left != succ ==> t' == t[x := row];
      t' := t'[x := (if x in t' then t'[x] else {}) + {d[u]}];
      assert t' == t[x := row + {d[u]}];
      left := left - {u};
    }
    assert succ - left == succ;
  }

  /** Every edge renamed (the `new_delta` loops). */
  method RenameTable(d: map<Pair, nat>, delta: map<Pair, set<Pair>>) returns (t: map<nat, set<nat>>)
    requires Injective(d)
    requires forall p :: p in delta ==> p in d && delta[p] != {} && delta[p] <= d.Keys
    ensures t == RenamedTable(d, delta, delta.Keys)
  {
    t := map[];
    var sources := delta.Keys;
    while sources != {}
      invariant sources <= delta.Keys
      invariant t == RenamedTable(d, delta, delta.Keys - sources)
      decreases sources
    {
      var p :| p in sources;
      ghost var done := delta.Keys - sources;
      RenamedTableGrow(d, delta, done, p);
      assert d[p] !in t;
      assert {} + Image(d, delta[p]) == Image(d, delta[p]);
      t := RenameRow(d, p, delta[p], t);
      sources := sources - {p};
      assert delta.Keys - sources == done + {p};
    }
    assert delta.Keys - sources == delta.Keys;
  }

  /** The numbering step of `decode_paired_states`: iterate over the pairs and number
    * them. */
  method NumberExplored(Q: set<Pair>, q0: Pair) returns (d: map<Pair, nat>)
    requires q0 in Q
    ensures IsRenaming(d, Q, q0)
  {
    var order := Enumerate(Q);
    d := NumberPairs(order, q0);
  }

  /** The checked constructor accepts one acceptance set and a table without empty
    * rows exactly when neither is empty. */
  lemma ConstructSimple(f: set<nat>, t: map<nat, set<nat>>)
    requires forall x :: x in t ==> t[x] != {}
    ensures Construct([f], t).Some? <==> f != {} && t != map[]
  {
    assert [f][0] == f;
    assert |t| > 0 <==> t != map[];
  }

  /** `decode_paired_states`: number the pairs, then rename the accepting pairs and
    * every edge, and hand the result to the checked constructor, which rejects an
    * empty acceptance set or an empty table. */
  method DecodePairedStates(Q: set<Pair>, q0: Pair, F: set<Pair>, delta: map<Pair, set<Pair>>)
    returns (r: Option<Automaton>, ghost dict: map<Pair, nat>)
    requires q0 in Q && F <= Q
    requires forall p :: p in delta ==> p in Q && delta[p] != {} && delta[p] <= Q
    ensures IsRenaming(dict, Q, q0)
    ensures r.None? <==> F == {} || delta == map[]
    ensures r.Some? ==> r.value.Valid() && r.value.finals == [Image(dict, F)]
    ensures r.Some? ==> r.value.trans == RenamedTable(dict, delta, delta.Keys)
  {
    var d := NumberExplored(Q, q0);
    dict := d;
    var newF := RenameSet(d, F);
    var newDelta := RenameTable(d, delta);
    if F != {} {
      var p :| p in F;
      assert d[p] in newF;
    }
    RenamedTableRows(d, delta);
    ConstructSimple(newF, newDelta);
    r := Construct([newF], newDelta);
  }

  // ------------------------------------------------------------ lassos in the product

  /** `x` lies in the strongly connected part of `s`. */
  ghost predicate InLasso(a: Automaton, s: nat, x: nat)
  {
    Reaches(a.trans, s, x) && Reaches(a.trans, x, s)
  }

  /** A state around a non-trivial cycle through `s` has a successor around it too. */
  lemma LassoSucc(a: Automaton, s: nat, x: nat) returns (y: nat)
    requires ReachesPlus(a.trans, s, s) && InLasso(a, s, x)
    ensures y in Succ(a.trans, x) && InLasso(a, s, y)
  {
    ReachesThenPlus(a.trans, x, s, s);
    PlusTrans(a.trans, x, s, x);
    y :| y in Succ(a.trans, x) && Reaches(a.trans, y, x);
    ReachesStep(a.trans, s, x, y);
    ReachesTrans(a.trans, y, x, s);
  }

  /** An edge of the automaton is an edge of the product, from every counter. */
  lemma PairEdge(a: Automaton, x: nat, c: nat, y: nat)
    requires |a.finals| > 0 && c < |a.finals| && y in Succ(a.trans, x)
    ensures (y, Next(a, x, c)) in Succ(Product(a), (x, c))
  {
    assert (x, c) in Universe(a);
  }

  /** A product edge is an edge of the automaton, with the counter advanced by `Next`. */
  lemma EdgeOfPair(a: Automaton, p: Pair, p': Pair)
    requires |a.finals| > 0 && p' in Succ(Product(a), p)
    ensures p.1 < |a.finals| && p'.0 in Succ(a.trans, p.0) && p'.1 == Next(a, p.0, p.1)
  {
    assert p in Universe(a);
  }

  /** A path of the automaton lifts to a path of the product from any counter. */
  lemma LiftReach(a: Automaton, x: nat, y: nat, c: nat) returns (d: nat)
    requires |a.finals| > 0 && c < |a.finals| && Reaches(a.trans, x, y)
    ensures d < |a.finals| && Reaches(Product(a), (x, c), (y, d))
  {
    var p :| IsPath(a.trans, p) && p[0] == x && p[|p| - 1] == y;
    var i := 0;
    var cur: nat := c;
    ReachesRefl(Product(a), (x, c));
    while i < |p| - 1
      invariant 0 <= i <= |p| - 1 && cur < |a.finals|
      invariant Reaches(Product(a), (x, c), (p[i], cur))
    {
      PairEdge(a, p[i], cur, p[i + 1]);
      ReachesStep(Product(a), (x, c), (p[i], cur), (p[i + 1], Next(a, p[i], cur)));
      i, cur := i + 1, Next(a, p[i], cur);
    }
    d := cur;
  }

  /** Following a path to a state of F_m with the counter at m: the counter stays at m
    * up to the first state of F_m on the way. */
  lemma LiftUntil(a: Automaton, x: nat, y: nat, m: nat) returns (z: nat)
    requires |a.finals| > 0 && m < |a.finals| && Reaches(a.trans, x, y) && y in a.finals[m]
    ensures z in a.finals[m] && Reaches(a.trans, x, z) && Reaches(a.trans, z, y)
    ensures Reaches(Product(a), (x, m), (z, m))
  {
    var p :| IsPath(a.trans, p) && p[0] == x && p[|p| - 1] == y;
    var i := 0;
    ReachesRefl(Product(a), (x, m));
    while i < |p| - 1 && p[i] !in a.finals[m]
      invariant 0 <= i <= |p| - 1
      invariant Reaches(Product(a), (x, m), (p[i], m))
    {
      PairEdge(a, p[i], m, p[i + 1]);
      ReachesStep(Product(a), (x, m), (p[i], m), (p[i + 1], m));
      i := i + 1;
    }
    z := p[i];
    PathReaches(a.trans, p, 0, i);
    PathReaches(a.trans, p, i, |p| - 1);
  }

  /** Around an accepting cycle of `a` the product can always advance the counter by
    * one: walk to a state of F_m and leave it. */
  lemma Advance(a: Automaton, s: nat, x: nat, m: nat) returns (y: nat)
    requires a.Valid() && a.AcceptingCycleAt(s) && InLasso(a, s, x) && m < |a.finals|
    ensures InLasso(a, s, y) && Reaches(Product(a), (x, m), (y, (m + 1) % |a.finals|))
  {
    var f :| f in a.finals[m] && Reaches(a.trans, s, f) && Reaches(a.trans, f, s);
    ReachesTrans(a.trans, x, s, f);
    var z := LiftUntil(a, x, f, m);
    ReachesTrans(a.trans, s, x, z);
    ReachesTrans(a.trans, z, f, s);
    y := LassoSucc(a, s, z);
    PairEdge(a, z, m, y);
    ReachesStep(Product(a), (x, m), (z, m), (y, (m + 1) % |a.finals|));
  }

  /** Advancing a counter below `k` wraps only from the last value. */
  lemma CounterWraps(c: nat, k: nat)
    requires c < k
    ensures (c + 1) % k == if c + 1 == k then 0 else c + 1
  {
  }

  /** Around an accepting cycle the product can bring any counter back to 0. */
  lemma {:induction false} ToCounterZero(a: Automaton, s: nat, x: nat, c: nat) returns (y: nat)
    requires a.Valid() && a.AcceptingCycleAt(s) && InLasso(a, s, x) && c < |a.finals|
    ensures InLasso(a, s, y) && Reaches(Product(a), (x, c), (y, 0))
    decreases |a.finals| - c
  {
    if c == 0 {
      y := x;
      ReachesRefl(Product(a), (x, 0));
    } else {
      var x' := Advance(a, s, x, c);
      var c' := (c + 1) % |a.finals|;
      CounterWraps(c, |a.finals|);
      if c' == 0 {
        y := x';
      } else {
        y := ToCounterZero(a, s, x', c');
        ReachesTrans(Product(a), (x, c), (x', c'), (y, 0));
      }
    }
  }

  /** From an accepting pair (q, 0) around an accepting cycle the product reaches, in one
    * or more steps, an accepting pair around the same cycle: the counter goes once round
    * and then waits at 0 for the first state of F_0 on the way back to `q`. */
  lemma NextAccepting(a: Automaton, s: nat, q: nat) returns (q': nat)
    requires a.Valid() && a.AcceptingCycleAt(s) && InLasso(a, s, q) && q in a.finals[0]
    ensures q' in a.finals[0] && InLasso(a, s, q') && ReachesPlus(Product(a), (q, 0), (q', 0))
  {
    var y := LassoSucc(a, s, q);
    var n := Next(a, q, 0);
    PairEdge(a, q, 0, y);
    var x := ToCounterZero(a, s, y, n);
    ReachesTrans(a.trans, x, s, q);
    q' := LiftUntil(a, x, q, 0);
    ReachesTrans(a.trans, s, x, q');
    ReachesTrans(a.trans, q', q, s);
    ReachesTrans(Product(a), (y, n), (x, 0), (q', 0));
    ReachesEdge(Product(a), (q, 0), (y, n));
    PlusTrans(Product(a), (q, 0), (y, n), (q', 0));
  }

  /** Chasing accepting pairs around an accepting cycle: the pairs already met are
    * `V`, all reaching the current one, so the chase ends on a pair met before, which
    * then lies on a cycle of the product. */
  lemma {:induction false} Chase(a: Automaton, s: nat, q: nat, V: set<nat>) returns (p: nat)
    requires a.Valid() && a.AcceptingCycleAt(s) && InLasso(a, s, q) && q in a.finals[0]
    requires V <= a.finals[0] && q !in V
    requires forall v :: v in V ==> Reaches(Product(a), (v, 0), (q, 0))
    ensures p in a.finals[0] && Reaches(Product(a), (q, 0), (p, 0)) && ReachesPlus(Product(a), (p, 0), (p, 0))
    decreases |a.finals[0] - V|
  {
    var q' := NextAccepting(a, s, q);
    PlusImpliesReaches(Product(a), (q, 0), (q', 0));
    if q' == q {
      p := q;
    } else if q' in V {
      p := q';
      ReachesThenPlus(Product(a), (q', 0), (q, 0), (q', 0));
    } else {
      forall v | v in V + {q} ensures Reaches(Product(a), (v, 0), (q', 0)) {
        if v != q {
          ReachesTrans(Product(a), (v, 0), (q, 0), (q', 0));
        }
      }
      MarkShrinks(a.finals[0], V, V + {q}, q);
      p := Chase(a, s, q', V + {q});
      ReachesTrans(Product(a), (q, 0), (q', 0), (p, 0));
    }
  }

  /** An accepting lasso of `a` gives an accepting pair (p, 0) reachable in the product
    * and on a cycle of the product. */
  lemma AcceptingPairCycle(a: Automaton) returns (p: nat)
    requires a.Valid() && a.NonEmpty()
    ensures p in a.finals[0] && Reaches(Product(a), StartPair, (p, 0))
    ensures ReachesPlus(Product(a), (p, 0), (p, 0))
  {
    var s :| Reaches(a.trans, InitialState, s) && a.AcceptingCycleAt(s);
    ReachesRefl(a.trans, s);
    var c := LiftReach(a, InitialState, s, 0);
    var x := ToCounterZero(a, s, s, c);
    var f :| f in a.finals[0] && Reaches(a.trans, s, f) && Reaches(a.trans, f, s);
    ReachesTrans(a.trans, x, s, f);
    var z := LiftUntil(a, x, f, 0);
    ReachesTrans(a.trans, s, x, z);
    ReachesTrans(a.trans, z, f, s);
    p := Chase(a, s, z, {});
    ReachesTrans(Product(a), StartPair, (s, c), (x, 0));
    ReachesTrans(Product(a), StartPair, (x, 0), (z, 0));
    ReachesTrans(Product(a), StartPair, (z, 0), (p, 0));
  }

  /** A path of the product projects to a path of the automaton. */
  lemma ProjectReach(a: Automaton, p: Pair, p': Pair)
    requires |a.finals| > 0 && Reaches(Product(a), p, p')
    ensures Reaches(a.trans, p.0, p'.0)
  {
    var pp: seq<Pair> :| IsPath(Product(a), pp) && pp[0] == p && pp[|pp| - 1] == p';
    var i := 0;
    ReachesRefl(a.trans, p.0);
    while i < |pp| - 1
      invariant 0 <= i <= |pp| - 1 && Reaches(a.trans, p.0, pp[i].0)
    {
      EdgeOfPair(a, pp[i], pp[i + 1]);
      ReachesStep(a.trans, p.0, pp[i].0, pp[i + 1].0);
      i := i + 1;
    }
  }

  /** A product path from a counter c >= 1 back to counter 0 advances the counter from
    * every m in [c, K), which needs a state of F_m on the path. */
  lemma {:induction false} SweepPath(a: Automaton, pp: seq<Pair>, m: nat) returns (k: nat)
    requires |a.finals| > 0 && IsPath(Product(a), pp)
    requires 1 <= pp[0].1 <= m < |a.finals| && pp[|pp| - 1].1 == 0
    ensures k < |pp| && pp[k].0 in a.finals[m]
    decreases |pp|
  {
    if |pp| == 1 {
      assert false;
    }
    EdgeOfPair(a, pp[0], pp[1]);
    var c := pp[0].1;
    if pp[0].0 in a.finals[c] && m == c {
      k := 0;
    } else {
      assert 1 <= pp[1].1 <= m by {
        CounterWraps(c, |a.finals|);
      }
      PathTail(Product(a), pp);
      var k' := SweepPath(a, pp[1..], m);
      k := k' + 1;
    }
  }

  /** On a product path from (t, 1) back to (q, 0), leaving q by the edge to t, every
    * F_m with m >= 1 has a state around the cycle through q. */
  lemma SweptSet(a: Automaton, q: nat, pp: seq<Pair>, m: nat)
    requires |a.finals| > 0 && IsPath(Product(a), pp) && pp[0].0 in Succ(a.trans, q)
    requires pp[0].1 == 1 && pp[|pp| - 1] == (q, 0) && 1 <= m < |a.finals|
    ensures exists f :: f in a.finals[m] && Reaches(a.trans, q, f) && Reaches(a.trans, f, q)
  {
    var k := SweepPath(a, pp, m);
    PathReaches(Product(a), pp, 0, k);
    PathReaches(Product(a), pp, k, |pp| - 1);
    ProjectReach(a, pp[0], pp[k]);
    ProjectReach(a, pp[k], (q, 0));
    ReachesEdge(a.trans, q, pp[0].0);
    ReachesTrans(a.trans, q, pp[0].0, pp[k].0);
  }

  /** An accepting pair (q, 0) reachable in the product and on a cycle of the product
    * gives an accepting lasso of `a` through q: the cycle leaves q with counter 0 and
    * comes back with counter 0, passing a state of every F_m on the way. */
  lemma PairCycleGivesLasso(a: Automaton, q: nat)
    requires a.Valid() && q in a.finals[0]
    requires Reaches(Product(a), StartPair, (q, 0)) && ReachesPlus(Product(a), (q, 0), (q, 0))
    ensures a.NonEmpty()
  {
    var pz :| pz in Succ(Product(a), (q, 0)) && Reaches(Product(a), pz, (q, 0));
    EdgeOfPair(a, (q, 0), pz);
    ProjectReach(a, pz, (q, 0));
    ProjectReach(a, StartPair, (q, 0));
    var pp: seq<Pair> :| IsPath(Product(a), pp) && pp[0] == pz && pp[|pp| - 1] == (q, 0);
    forall i | 0 <= i < |a.finals|
      ensures exists f :: f in a.finals[i] && Reaches(a.trans, q, f) && Reaches(a.trans, f, q)
    {
      if i == 0 {
        ReachesRefl(a.trans, q);
      } else {
        CounterWraps(0, |a.finals|);
        assert a.InFinalSet(q, 0) && pz.1 == 1;
        SweptSet(a, q, pp, i);
      }
    }
    assert a.AcceptingCycleAt(q);
  }

  // ------------------------------------------------------------ nga2nba

  /** The outcome of `nga2nba`: no conversion for a simple automaton (`std::nullopt`),
    * a constructor assertion failure, or the converted simple automaton. */
  datatype ConvResult = Unchanged | Rejected | Converted(nba: Automaton)

  /** `b` is the product restricted to the pairs of `Q`, renamed by `dict`: one
    * acceptance set, holding the ids of the pairs (q, 0) of `Q` with q in F_0, an edge
    * between two ids exactly when the product has one between their pairs, and no state
    * that is not the id of a pair of `Q`. */
  ghost predicate RenamesProduct(b: Automaton, dict: map<Pair, nat>, a: Automaton, Q: set<Pair>)
    requires |a.finals| > 0 && Q <= dict.Keys && Q <= Universe(a)
  {
    && |b.finals| == 1
    && b.finals[0] <= Image(dict, Q)
    && b.trans.Keys <= Image(dict, Q)
    && (forall x :: x in b.trans ==> b.trans[x] <= Image(dict, Q))
    && (forall p :: p in Q ==> (dict[p] in b.finals[0] <==> p.1 == 0 && p.0 in a.finals[0]))
    && (forall p, p' :: p in Q && p' in Q ==>
          (dict[p] in b.trans && dict[p'] in b.trans[dict[p]] <==> p' in PairSucc(a, p)))
  }

  /** `b` is the reachable product of `a`, renamed bijectively with (0, 0) as 0. */
  ghost predicate ConvertsTo(a: Automaton, b: Automaton)
    requires |a.finals| > 0
  {
    exists dict :: IsRenaming(dict, ReachablePairs(a), StartPair) && RenamesProduct(b, dict, a, ReachablePairs(a))
  }

  /** Some reachable pair (q, 0) has q in F_0: the converted automaton has an accepting state. */
  ghost predicate AcceptingPairReachable(a: Automaton)
    requires |a.finals| > 0
  {
    exists p :: p in ReachablePairs(a) && p.1 == 0 && p.0 in a.finals[0]
  }

  /** Every reachable pair has an id, and every product edge out of a reachable pair
    * leads to a reachable pair and is renamed to an edge of `b`. */
  ghost predicate CarriesEdges(a: Automaton, b: Automaton, dict: map<Pair, nat>)
    requires |a.finals| > 0
  {
    && ReachablePairs(a) <= dict.Keys
    && forall x, y :: x in ReachablePairs(a) && y in Succ(Product(a), x) ==>
         y in ReachablePairs(a) && dict[y] in Succ(b.trans, dict[x])
  }

  /** The renamed reachable product carries the product's edges. */
  lemma RenamingCarriesEdges(a: Automaton, b: Automaton, dict: map<Pair, nat>)
    requires |a.finals| > 0 && IsRenaming(dict, ReachablePairs(a), StartPair)
    requires RenamesProduct(b, dict, a, ReachablePairs(a))
    ensures CarriesEdges(a, b, dict)
  {
    forall x, y | x in ReachablePairs(a) && y in Succ(Product(a), x)
      ensures y in ReachablePairs(a) && dict[y] in Succ(b.trans, dict[x])
    {
      EdgeOfPair(a, x, y);
      ReachesStep(Product(a), StartPair, x, y);
      assert y in Universe(a);
      InReachablePairs(a, y);
    }
  }

  /** A product path from a reachable pair stays among the reachable pairs, and its
    * renaming is a path of the converted automaton. */
  lemma ForwardRenamed(a: Automaton, b: Automaton, dict: map<Pair, nat>, p: Pair, p': Pair)
    requires |a.finals| > 0 && CarriesEdges(a, b, dict)
    requires p in ReachablePairs(a) && Reaches(Product(a), p, p')
    ensures p' in ReachablePairs(a) && Reaches(b.trans, dict[p], dict[p'])
  {
    MapReach(Product(a), b.trans, ReachablePairs(a), dict, p, p');
  }

  /** A path of the converted automaton from the id of a reachable pair is the renaming
    * of a product path: every state it meets is the id of a pair. */
  lemma BackRenamed(a: Automaton, b: Automaton, dict: map<Pair, nat>, p: Pair, y: nat) returns (p': Pair)
    requires |a.finals| > 0 && IsRenaming(dict, ReachablePairs(a), StartPair)
    requires RenamesProduct(b, dict, a, ReachablePairs(a))
    requires p in ReachablePairs(a) && Reaches(b.trans, dict[p], y)
    ensures p' in ReachablePairs(a) && dict[p'] == y && Reaches(Product(a), p, p')
  {
    var Q := ReachablePairs(a);
    var path: seq<nat> :| IsPath(b.trans, path) && path[0] == dict[p] && path[|path| - 1] == y;
    var i := 0;
    p' := p;
    ReachesRefl(Product(a), p);
    while i < |path| - 1
      invariant 0 <= i <= |path| - 1 && p' in Q && dict[p'] == path[i] && Reaches(Product(a), p, p')
    {
      assert path[i + 1] in b.trans[dict[p']];
      var u :| u in Q && dict[u] == path[i + 1];
      assert u in PairSucc(a, p');
      assert p' in Universe(a);
      ReachesStep(Product(a), p, p', u);
      p' := u;
      i := i + 1;
    }
  }

  /** An accepting lasso of `a` becomes an accepting lasso of the converted automaton. */
  lemma ConvertedKeepsLasso(a: Automaton, b: Automaton, dict: map<Pair, nat>)
    requires a.Valid() && IsRenaming(dict, ReachablePairs(a), StartPair)
    requires RenamesProduct(b, dict, a, ReachablePairs(a))
    requires a.NonEmpty()
    ensures b.NonEmpty()
  {
    var q := AcceptingPairCycle(a);
    ReachesRefl(Product(a), StartPair);
    assert StartPair in Universe(a);
    RenamingCarriesEdges(a, b, dict);
    ForwardRenamed(a, b, dict, StartPair, (q, 0));
    var w :| w in Succ(Product(a), (q, 0)) && Reaches(Product(a), w, (q, 0));
    ReachesStep(Product(a), StartPair, (q, 0), w);
    EdgeOfPair(a, (q, 0), w);
    assert w in Universe(a);
    ForwardRenamed(a, b, dict, w, (q, 0));
    assert dict[w] in Succ(b.trans, dict[(q, 0)]);
    SimpleNonEmpty(b, dict[(q, 0)]);
  }

  /** An accepting lasso of the converted automaton comes from an accepting pair on a
    * product cycle, hence from an accepting lasso of `a`. */
  lemma ConvertedReflectsLasso(a: Automaton, b: Automaton, dict: map<Pair, nat>)
    requires a.Valid() && IsRenaming(dict, ReachablePairs(a), StartPair)
    requires RenamesProduct(b, dict, a, ReachablePairs(a))
    requires b.NonEmpty()
    ensures a.NonEmpty()
  {
    var Q := ReachablePairs(a);
    var f := SimpleNonEmptyWitness(b);
    var pq :| pq in Q && dict[pq] == f;
    var z :| z in Succ(b.trans, f) && Reaches(b.trans, z, f);
    var pz :| pz in Q && dict[pz] == z;
    assert pz in PairSucc(a, pq) && pq in Universe(a);
    var back := BackRenamed(a, b, dict, pz, f);
    assert back == pq;
    assert pz in Succ(Product(a), pq);
    PairCycleGivesLasso(a, pq.0);
  }

  /** The converted automaton is empty exactly when `a` is: an accepting lasso of `a`
    * becomes a reachable accepting pair on a product cycle, and back. */
  lemma ConvertsToKeepsEmptiness(a: Automaton, b: Automaton)
    requires a.Valid() && ConvertsTo(a, b)
    ensures a.NonEmpty() <==> b.NonEmpty()
  {
    var dict :| IsRenaming(dict, ReachablePairs(a), StartPair) && RenamesProduct(b, dict, a, ReachablePairs(a));
    if a.NonEmpty() {
      ConvertedKeepsLasso(a, b, dict);
    }
    if b.NonEmpty() {
      ConvertedReflectsLasso(a, b, dict);
    }
  }

  /** A non-empty automaton has an edge out of state 0 and a reachable accepting pair. */
  lemma NonEmptyExplores(a: Automaton)
    requires a.Valid() && a.NonEmpty()
    ensures InitialState in a.trans && AcceptingPairReachable(a)
  {
    var q := AcceptingPairCycle(a);
    var w :| w in Succ(Product(a), (q, 0)) && Reaches(Product(a), w, (q, 0));
    EdgeOfPair(a, (q, 0), w);
    assert (q, 0) in Universe(a) && (q, 0) in ReachablePairs(a);
    var v: Pair;
    if (q, 0) == StartPair {
      v := w;
    } else {
      ReachesOther(Product(a), StartPair, (q, 0));
      v :| v in Succ(Product(a), StartPair) && Reaches(Product(a), v, (q, 0));
    }
    EdgeOfPair(a, StartPair, v);
  }

  /** When the constructor rejects the conversion, `a` is empty. */
  lemma RejectedIsEmpty(a: Automaton)
    requires a.Valid() && (InitialState !in a.trans || !AcceptingPairReachable(a))
    ensures !a.NonEmpty()
  {
    if a.NonEmpty() {
      NonEmptyExplores(a);
      assert false;
    }
  }

  /** The renamed acceptance set holds exactly the ids of the accepting pairs. */
  lemma FinalsRenamed(a: Automaton, Q: set<Pair>, F: set<Pair>, dict: map<Pair, nat>, b: Automaton)
    requires a.Valid() && Q <= Universe(a)
    requires forall p :: p in F <==> p in Q && p.1 == 0 && p.0 in a.finals[0]
    requires dict.Keys == Q && Injective(dict)
    requires b.finals == [Image(dict, F)]
    ensures forall p :: p in Q ==> (dict[p] in b.finals[0] <==> p.1 == 0 && p.0 in a.finals[0])
  {
    ImageMember(dict, F);
  }

  /** The renamed table has an edge between two ids exactly when the product has one
    * between their pairs. */
  lemma EdgesRenamed(a: Automaton, Q: set<Pair>, delta: map<Pair, set<Pair>>, dict: map<Pair, nat>, b: Automaton)
    requires a.Valid() && Q <= Universe(a)
    requires forall p :: p in delta <==> p in Q && PairSucc(a, p) != {}
    requires forall p :: p in Q ==> PairSucc(a, p) <= Q
    requires forall p :: p in delta ==> delta[p] == PairSucc(a, p)
    requires dict.Keys == Q && Injective(dict)
    requires b.trans == RenamedTable(dict, delta, delta.Keys)
    ensures forall p, p' :: p in Q && p' in Q ==>
      (dict[p] in b.trans && dict[p'] in b.trans[dict[p]] <==> p' in PairSucc(a, p))
  {
    RenamedTableEdges(dict, delta);
  }

  /** Renaming the explored product gives the reachable product, renamed. */
  lemma ConvertedIsProduct(a: Automaton, Q: set<Pair>, F: set<Pair>, delta: map<Pair, set<Pair>>,
                           dict: map<Pair, nat>, b: Automaton)
    requires a.Valid() && StartPair in Q && Q <= Universe(a)
    requires forall p :: p in Q ==> Reaches(Product(a), StartPair, p)
    requires forall p :: p in Q ==> p.1 < |a.finals| && PairSucc(a, p) <= Q
    requires forall p :: p in F <==> p in Q && p.1 == 0 && p.0 in a.finals[0]
    requires forall p :: p in delta <==> p in Q && PairSucc(a, p) != {}
    requires forall p :: p in delta ==> delta[p] == PairSucc(a, p)
    requires IsRenaming(dict, Q, StartPair)
    requires b.finals == [Image(dict, F)] && b.trans == RenamedTable(dict, delta, delta.Keys)
    ensures ConvertsTo(a, b)
  {
    ExploredIsReachable(a, Q);
    FinalsRenamed(a, Q, F, dict, b);
    EdgesRenamed(a, Q, delta, dict, b);
    RenamedTableWithin(dict, delta, Q);
    assert RenamesProduct(b, dict, a, Q);
  }

  /** What exploration tells about the two ways the constructor can reject the result:
    * no accepting pair explored, or an empty table. */
  lemma ExploreOutcome(a: Automaton, Q: set<Pair>, F: set<Pair>, delta: map<Pair, set<Pair>>)
    requires a.Valid() && StartPair in Q && Q <= Universe(a)
    requires forall p :: p in Q ==> Reaches(Product(a), StartPair, p)
    requires forall p :: p in Q ==> p.1 < |a.finals| && PairSucc(a, p) <= Q
    requires forall p :: p in F <==> p in Q && p.1 == 0 && p.0 in a.finals[0]
    requires forall p :: p in delta <==> p in Q && PairSucc(a, p) != {}
    ensures F == {} <==> !AcceptingPairReachable(a)
    ensures delta == map[] <==> InitialState !in a.trans
  {
    ExploredIsReachable(a, Q);
    EmptyTableIffNoStart(a, Q, delta);
    if F != {} {
      var p :| p in F;
    }
  }

  /** The explored table is empty exactly when the initial state has no successor. */
  lemma EmptyTableIffNoStart(a: Automaton, Q: set<Pair>, delta: map<Pair, set<Pair>>)
    requires a.Valid() && StartPair in Q && Q <= Universe(a)
    requires forall p :: p in Q ==> Reaches(Product(a), StartPair, p)
    requires forall p :: p in delta <==> p in Q && PairSucc(a, p) != {}
    ensures delta == map[] <==> InitialState !in a.trans
  {
    if InitialState in a.trans {
      var t :| t in a.trans[InitialState];
      assert (t, Next(a, InitialState, 0)) in PairSucc(a, StartPair);
      assert StartPair in delta;
    } else {
      assert Succ(Product(a), StartPair) == {};
      forall p | p in Q ensures p == StartPair {
        if p != StartPair {
          ReachesOther(Product(a), StartPair, p);
          assert false;
        }
      }
    }
  }

  /** What the explored and renamed product is: rejected exactly when state 0 has no
    * successor or no accepting pair is reachable, and otherwise the reachable product,
    * renamed. */
  lemma ConversionOutcome(a: Automaton, Q: set<Pair>, F: set<Pair>, delta: map<Pair, set<Pair>>,
                          dict: map<Pair, nat>, r: ConvResult)
    requires a.Valid() && StartPair in Q && Q <= Universe(a)
    requires forall p :: p in Q ==> Reaches(Product(a), StartPair, p)
    requires forall p :: p in Q ==> p.1 < |a.finals| && PairSucc(a, p) <= Q
    requires forall p :: p in F <==> p in Q && p.1 == 0 && p.0 in a.finals[0]
    requires forall p :: p in delta <==> p in Q && PairSucc(a, p) != {}
    requires forall p :: p in delta ==> delta[p] == PairSucc(a, p)
    requires IsRenaming(dict, Q, StartPair)
    requires !r.Unchanged?
    requires r.Rejected? <==> F == {} || delta == map[]
    requires r.Converted? ==> r.nba.Valid() && r.nba.finals == [Image(dict, F)]
    requires r.Converted? ==> r.nba.trans == RenamedTable(dict, delta, delta.Keys)
    ensures r.Rejected? <==> InitialState !in a.trans || !AcceptingPairReachable(a)
    ensures r.Converted? ==> r.nba.Valid() && |r.nba.finals| == 1 && ConvertsTo(a, r.nba)
  {
    ExploreOutcome(a, Q, F, delta);
    if r.Converted? {
      ConvertedIsProduct(a, Q, F, delta, dict, r.nba);
    }
  }

  /** Whatever the constructor does with the conversion, the verdict on emptiness is
    * kept: a rejected conversion means `a` is empty, an accepted one is empty exactly
    * when `a` is. */
  lemma OutcomeKeepsEmptiness(a: Automaton, r: ConvResult)
    requires a.Valid() && !r.Unchanged?
    requires r.Rejected? ==> InitialState !in a.trans || !AcceptingPairReachable(a)
    requires r.Converted? ==> ConvertsTo(a, r.nba)
    ensures r.Converted? ==> (a.NonEmpty() <==> r.nba.NonEmpty())
    ensures r.Rejected? ==> !a.NonEmpty()
  {
    if r.Converted? {
      ConvertsToKeepsEmptiness(a, r.nba);
    } else {
      RejectedIsEmpty(a);
    }
  }

  /** The body of `nga2nba` for a generalized automaton: explore the counting product
    * from (0, 0), then renumber. The checked constructor rejects the result when state 0
    * has no successor or no accepting pair is reachable. */
  method ConvertGeneralized(a: Automaton) returns (r: ConvResult)
    requires a.Valid()
    ensures !r.Unchanged?
    ensures r.Rejected? <==> InitialState !in a.trans || !AcceptingPairReachable(a)
    ensures r.Converted? ==> r.nba.Valid() && |r.nba.finals| == 1 && ConvertsTo(a, r.nba)
    ensures r.Converted? ==> (a.NonEmpty() <==> r.nba.NonEmpty())
    ensures r.Rejected? ==> !a.NonEmpty()
  {
    var Q, F, delta := Explore(a);
    var b, dict := DecodePairedStates(Q, StartPair, F, delta);
    r := if b.None? then Rejected else Converted(b.value);
    ConversionOutcome(a, Q, F, delta, dict, r);
    OutcomeKeepsEmptiness(a, r);
  }

  /** `nga2nba`: nothing to do for a simple automaton; otherwise the reachable part of
    * the counting product, renamed bijectively with (0, 0) as 0, whose single acceptance
    * set holds the pairs (q, 0) with q in F_0. */
  method Nga2Nba(a: Automaton) returns (r: ConvResult)
    requires a.Valid()
    ensures r.Unchanged? <==> !a.IsGeneralized()
    ensures r.Rejected? <==> a.IsGeneralized() && (InitialState !in a.trans || !AcceptingPairReachable(a))
    ensures r.Converted? ==> r.nba.Valid() && |r.nba.finals| == 1 && ConvertsTo(a, r.nba)
    ensures r.Converted? ==> (a.NonEmpty() <==> r.nba.NonEmpty())
    ensures r.Rejected? ==> !a.NonEmpty()
  {
    if !a.IsGeneralized() {
      return Unchanged;
    }
    r := ConvertGeneralized(a);
  }
}

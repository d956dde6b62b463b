/**
 * The two-stack emptiness check (`emptiness_check::dfs::two_stack`): one
 * depth-first search that keeps, besides the visiting map S, a stack V of the
 * states discovered and not yet known to be finished with, and a stack C of
 * candidates, each the root of a group of V-states found to lie on a common
 * cycle together with the acceptance-set indices seen in that group. An edge
 * back into V merges the candidates above its target into one; the check
 * reports NONEMPTY when a merged group covers every acceptance set (or, for a
 * simple automaton, when an accepting candidate is merged).
 *
 * The containers the source passes by reference (S, C, V and the clock t) are
 * passed in and handed back. Stacks are sequences whose last element is the top.
 * The ghost `path` is the chain of states whose `dfs` call is still running,
 * outermost first: it is what the invariant needs to talk about the recursion.
 */
module TwoStack {
  import opened Wrappers
  import opened Graphs
  import opened Buchi
  import SortedSets

  /** What S records about a discovered state: whether it is on V, and its discovery time. */
  type Visit = (bool, nat)

  /** A candidate: a state and the indices of the acceptance sets seen in its group. */
  type Entry = (nat, seq<nat>)

  /** The discovery time of `x` (0 for a state not yet discovered). */
  function Time(S: map<nat, Visit>, x: nat): nat
  {
    if x in S then S[x].1 else 0
  }

  /** `x` is discovered and its on-V bit is set. */
  predicate OnV(S: map<nat, Visit>, x: nat)
  {
    x in S && S[x].0
  }

  /** The states of the candidates, bottom first. */
  function Roots(C: seq<Entry>): (r: seq<nat>)
    ensures |r| == |C| && forall k :: 0 <= k < |C| ==> r[k] == C[k].0
  {
    seq(|C|, k requires 0 <= k < |C| => C[k].0)
  }

  /** The states of `s` were discovered in strictly increasing order. */
  ghost predicate Ordered(S: map<nat, Visit>, s: seq<nat>)
  {
    forall i, j :: 0 <= i < j < |s| ==> Time(S, s[i]) < Time(S, s[j])
  }

  /** The bookkeeping the search keeps consistent: V, the running states and the
    * candidates are each ordered by discovery time, the on-V bit tells exactly who is
    * on V, every time is at most the clock, the candidates are running states and the
    * running states are on V, and the lowest candidate is the bottom of V. */
  ghost predicate StacksInv(S: map<nat, Visit>, C: seq<Entry>, V: seq<nat>, t: nat, path: seq<nat>)
  {
    && (forall x :: x in V <==> OnV(S, x))
    && (forall x :: x in S ==> Time(S, x) <= t)
    && Ordered(S, V) && Ordered(S, path) && Ordered(S, Roots(C))
    && (forall x :: x in path ==> x in V)
    && (forall x :: x in Roots(C) ==> x in path)
    && (V != [] ==> C != [] && C[0].0 == V[0])
  }

  /** A state discovered after every state of `s` can be put on top of it. */
  lemma AppendOrdered(S: map<nat, Visit>, S': map<nat, Visit>, s: seq<nat>, q: nat)
    requires Ordered(S, s)
    requires forall x :: x in s ==> Time(S', x) == Time(S, x) < Time(S', q)
    ensures Ordered(S', s + [q])
  {
    var s' := s + [q];
    forall i, j | 0 <= i < j < |s'| ensures Time(S', s'[i]) < Time(S', s'[j]) {
      assert s'[i] == s[i] && s[i] in s;
      if j < |s| {
        assert s'[j] == s[j] && s[j] in s;
      }
    }
  }

  /** `C[k]` is the candidate of `x`'s group: the last candidate discovered no later than `x`. */
  ghost predicate GroupOf(S: map<nat, Visit>, C: seq<Entry>, x: nat, k: nat)
    requires k < |C|
  {
    Time(S, C[k].0) <= Time(S, x) && (k + 1 < |C| ==> Time(S, x) < Time(S, C[k + 1].0))
  }

  /** Every discovered state is reachable from the initial state. */
  ghost predicate FromInit(a: Automaton, S: map<nat, Visit>)
  {
    forall x {:trigger Reaches(a.trans, InitialState, x)} :: x in S ==> Reaches(a.trans, InitialState, x)
  }

  /** A running state reaches every V-state discovered after it (they were all discovered
    * inside its call). */
  ghost predicate RunningReach(a: Automaton, S: map<nat, Visit>, V: seq<nat>, path: seq<nat>)
  {
    forall p, x {:trigger Reaches(a.trans, p, x)} :: p in path && x in V && Time(S, p) <= Time(S, x) ==> Reaches(a.trans, p, x)
  }

  /** Every V-state reaches the candidate of its group. */
  ghost predicate GroupsReach(a: Automaton, S: map<nat, Visit>, C: seq<Entry>, V: seq<nat>)
  {
    forall x, k {:trigger Reaches(a.trans, x, C[k].0)} :: x in V && 0 <= k < |C| && GroupOf(S, C, x, k) ==> Reaches(a.trans, x, C[k].0)
  }

  /** The reachability facts the search keeps. */
  ghost predicate ReachInv(a: Automaton, S: map<nat, Visit>, C: seq<Entry>, V: seq<nat>, path: seq<nat>)
  {
    FromInit(a, S) && RunningReach(a, S, V, path) && GroupsReach(a, S, C, V)
  }

  /** Every index in `I` names an acceptance set with a member on a common cycle with `q`. */
  ghost predicate Witnessed(a: Automaton, I: seq<nat>, q: nat)
  {
    forall i :: i in I ==> i < |a.finals| && exists f :: f in a.finals[i] && Reaches(a.trans, q, f) && Reaches(a.trans, f, q)
  }

  /** Each candidate's index list is sorted and witnessed by its group. */
  ghost predicate ColourInv(a: Automaton, C: seq<Entry>)
  {
    forall k :: 0 <= k < |C| ==> SortedSets.Increasing(C[k].1) && Witnessed(a, C[k].1, C[k].0)
  }

  /** The whole invariant of the search. */
  ghost predicate Inv(a: Automaton, S: map<nat, Visit>, C: seq<Entry>, V: seq<nat>, t: nat, path: seq<nat>)
  {
    StacksInv(S, C, V, t, path) && ReachInv(a, S, C, V, path) && ColourInv(a, C)
  }

  /** A lasso through `q`: `q` is reachable, on a cycle, and shares a cycle with a member
    * of every acceptance set. */
  lemma LassoAt(a: Automaton, q: nat)
    requires Reaches(a.trans, InitialState, q) && ReachesPlus(a.trans, q, q)
    requires forall i :: 0 <= i < |a.finals| ==>
      exists f :: f in a.finals[i] && Reaches(a.trans, q, f) && Reaches(a.trans, f, q)
    ensures a.NonEmpty()
  {
    assert a.AcceptingCycleAt(q);
  }

  /** A sorted list of `k` indices below `k` holds every index below `k`. */
  lemma {:induction false} AllIndices(I: seq<nat>, k: nat)
    requires SortedSets.Increasing(I) && |I| == k
    requires forall i :: i in I ==> i < k
    ensures forall i :: 0 <= i < k ==> i in I
  {
    forall j | 0 <= j < |I| ensures I[j] == j {
      BoundsBelow(I, j);
      BoundsAbove(I, j, k);
    }
    forall i | 0 <= i < k ensures i in I {
      assert I[i] == i;
    }
  }

  lemma {:induction false} BoundsBelow(I: seq<nat>, j: nat)
    requires SortedSets.Increasing(I) && j < |I|
    ensures I[j] >= j
  {
    if j > 0 {
      BoundsBelow(I, j - 1);
    }
  }

  lemma {:induction false} BoundsAbove(I: seq<nat>, j: nat, k: nat)
    requires SortedSets.Increasing(I) && |I| == k && j < k
    requires forall i :: i in I ==> i < k
    ensures I[j] <= j
    decreases k - j
  {
    if j + 1 < k {
      BoundsAbove(I, j + 1, k);
    } else {
      assert I[j] in I;
    }
  }

  /** Moving a witness along a common cycle. */
  lemma WitnessMove(a: Automaton, I: seq<nat>, x: nat, y: nat)
    requires Witnessed(a, I, x) && Reaches(a.trans, x, y) && Reaches(a.trans, y, x)
    ensures Witnessed(a, I, y)
  {
    forall i | i in I
      ensures exists f :: f in a.finals[i] && Reaches(a.trans, y, f) && Reaches(a.trans, f, y)
    {
      var f :| f in a.finals[i] && Reaches(a.trans, x, f) && Reaches(a.trans, f, x);
      ReachesTrans(a.trans, y, x, f);
      ReachesTrans(a.trans, f, x, y);
    }
  }

  /** Every running state reaches the innermost one. */
  lemma PathReachesTop(a: Automaton, S: map<nat, Visit>, C: seq<Entry>, V: seq<nat>, t: nat, path: seq<nat>)
    requires Inv(a, S, C, V, t, path) && path != []
    ensures forall p :: p in path ==> Reaches(a.trans, p, path[|path| - 1])
  {
    var q := path[|path| - 1];
    forall p | p in path ensures Reaches(a.trans, p, q) {
      var i :| 0 <= i < |path| && path[i] == p;
      assert q in V;
      if i < |path| - 1 {
        assert Time(S, p) < Time(S, q);
      }
    }
  }

  /** Discovering `q` keeps the stacks ordered: it is stamped later than everything. */
  lemma DiscoverStacks(S: map<nat, Visit>, C: seq<Entry>, V: seq<nat>, t: nat, path: seq<nat>,
                       q: nat, colour: seq<nat>)
    requires StacksInv(S, C, V, t, path) && q !in S
    ensures StacksInv(S[q := (true, t + 1)], C + [(q, colour)], V + [q], t + 1, path + [q])
  {
    var S', C', V', path' := S[q := (true, t + 1)], C + [(q, colour)], V + [q], path + [q];
    assert forall x :: x != q ==> Time(S', x) == Time(S, x) && (OnV(S', x) <==> OnV(S, x));
    assert forall x :: x in V ==> Time(S, x) <= t;
    AppendOrdered(S, S', V, q);
    AppendOrdered(S, S', path, q);
    assert Roots(C') == Roots(C) + [q];
    AppendOrdered(S, S', Roots(C), q);
    if C != [] {
      assert C[0].0 in Roots(C);
    }
    if V != [] {
      assert C'[0] == C[0] && V'[0] == V[0];
    }
  }

  /** Discovering `q` keeps the reachability facts: everything running reaches `q`, and
    * `q` is its own group. */
  lemma DiscoverReach(a: Automaton, S: map<nat, Visit>, C: seq<Entry>, V: seq<nat>, t: nat, path: seq<nat>,
                      q: nat, colour: seq<nat>)
    requires StacksInv(S, C, V, t, path) && ReachInv(a, S, C, V, path) && q !in S
    requires Reaches(a.trans, InitialState, q) && forall p :: p in path ==> Reaches(a.trans, p, q)
    ensures ReachInv(a, S[q := (true, t + 1)], C + [(q, colour)], V + [q], path + [q])
  {
    var S' := S[q := (true, t + 1)];
    assert forall x :: x != q ==> Time(S', x) == Time(S, x);
    assert Time(S', q) == t + 1;
    assert forall x :: x in V ==> Time(S, x) <= t;
    ReachesRefl(a.trans, q);
    DiscoverRunning(a, S, S', V, path, q);
    DiscoverGroups(a, S, S', C, V, q, colour);
  }

  lemma DiscoverRunning(a: Automaton, S: map<nat, Visit>, S': map<nat, Visit>, V: seq<nat>, path: seq<nat>, q: nat)
    requires RunningReach(a, S, V, path) && q !in V && q !in path
    requires forall x :: x != q ==> Time(S', x) == Time(S, x)
    requires forall x :: x in V ==> Time(S, x) < Time(S', q)
    requires Reaches(a.trans, q, q) && forall p :: p in path ==> Reaches(a.trans, p, q)
    ensures RunningReach(a, S', V + [q], path + [q])
  {
  }

  lemma DiscoverGroups(a: Automaton, S: map<nat, Visit>, S': map<nat, Visit>, C: seq<Entry>, V: seq<nat>,
                       q: nat, colour: seq<nat>)
    requires GroupsReach(a, S, C, V) && q !in V
    requires forall x :: x != q ==> Time(S', x) == Time(S, x)
    requires forall x :: x in V ==> Time(S, x) < Time(S', q)
    requires forall x :: x in Roots(C) ==> x in V
    requires Reaches(a.trans, q, q)
    ensures GroupsReach(a, S', C + [(q, colour)], V + [q])
  {
    var C', V' := C + [(q, colour)], V + [q];
    forall x, k | x in V' && 0 <= k < |C'| ensures GroupOf(S', C', x, k) ==> Reaches(a.trans, x, C'[k].0) {
      if x != q {
        assert k < |C| ==> C'[k] == C[k] && (k + 1 < |C| ==> C'[k + 1] == C[k + 1]);
        assert k < |C| ==> (GroupOf(S', C', x, k) <==> GroupOf(S, C, x, k));
      } else if k + 1 < |C| {
        assert C'[k + 1] == C[k + 1] && C[k + 1].0 in Roots(C);
      }
    }
  }

  /** Discovering `q` with the acceptance sets that hold `q` as its colour. */
  lemma DiscoverColour(a: Automaton, C: seq<Entry>, q: nat, colour: seq<nat>)
    requires ColourInv(a, C)
    requires SortedSets.Increasing(colour) && forall i :: i in colour ==> i < |a.finals| && q in a.finals[i]
    ensures ColourInv(a, C + [(q, colour)])
  {
    ReachesRefl(a.trans, q);
    assert Witnessed(a, colour, q);
  }

  /** In a sequence ordered by discovery time no state occurs twice. */
  lemma OrderedDistinct(S: map<nat, Visit>, s: seq<nat>, i: nat, j: nat)
    requires Ordered(S, s) && i < |s| && j < |s| && s[i] == s[j]
    ensures i == j
  {
  }

  /** The group of a V-state `x`: the last candidate discovered no later than `x`. It
    * exists because the lowest candidate is the bottom of V. */
  lemma GroupIndex(S: map<nat, Visit>, C: seq<Entry>, V: seq<nat>, t: nat, path: seq<nat>, x: nat)
    returns (k: nat)
    requires StacksInv(S, C, V, t, path) && x in V
    ensures k < |C| && GroupOf(S, C, x, k)
    ensures forall j :: 0 <= j <= k ==> Time(S, C[j].0) <= Time(S, x)
    ensures forall j :: k < j < |C| ==> Time(S, x) < Time(S, C[j].0)
  {
    var i :| 0 <= i < |V| && V[i] == x;
    assert Time(S, V[0]) <= Time(S, x) by {
      if i > 0 {
        assert Time(S, V[0]) < Time(S, V[i]);
      }
    }
    var R := Roots(C);
    assert R[0] == V[0];
    k := 0;
    while k + 1 < |C| && Time(S, R[k + 1]) <= Time(S, x)
      invariant k < |C| && forall j :: 0 <= j <= k ==> Time(S, R[j]) <= Time(S, x)
    {
      k := k + 1;
    }
    forall j | k < j < |C| ensures Time(S, x) < Time(S, C[j].0) {
      if k + 1 < j {
        assert Time(S, R[k + 1]) < Time(S, R[j]);
      }
    }
  }

  /** An edge from the innermost running state `q` back to a V-state `r` closes a cycle
    * through `q` and every candidate from `r`'s group upwards. */
  lemma MergeCycle(a: Automaton, S: map<nat, Visit>, C: seq<Entry>, V: seq<nat>, t: nat, path: seq<nat>,
                   q: nat, r: nat, k: nat)
    requires Inv(a, S, C, V, t, path) && path != [] && path[|path| - 1] == q
    requires r in Succ(a.trans, q) && r in V && k < |C| && GroupOf(S, C, r, k)
    ensures ReachesPlus(a.trans, q, q)
    ensures forall j :: k <= j < |C| ==> Reaches(a.trans, C[j].0, q) && Reaches(a.trans, q, C[j].0)
  {
    var R := Roots(C);
    var b := R[k];
    assert Reaches(a.trans, r, b);
    PathReachesTop(a, S, C, V, t, path);
    assert b in path;
    ReachesEdge(a.trans, q, r);
    ReachesTrans(a.trans, q, r, b);
    ReachesTrans(a.trans, r, b, q);
    forall j | k <= j < |C| ensures Reaches(a.trans, C[j].0, q) && Reaches(a.trans, q, C[j].0) {
      assert R[j] in path;
      if j > k {
        assert Time(S, b) < Time(S, R[j]);
        assert Reaches(a.trans, b, R[j]);
        ReachesTrans(a.trans, q, b, R[j]);
      }
    }
  }

  /** Merging keeps the stacks ordered: the candidates become a prefix of the old ones,
    * ending in the candidate of `r`'s group. */
  lemma MergeStacks(S: map<nat, Visit>, C: seq<Entry>, V: seq<nat>, t: nat, path: seq<nat>, k: nat, I: seq<nat>)
    requires StacksInv(S, C, V, t, path) && k < |C|
    ensures StacksInv(S, C[..k] + [(C[k].0, I)], V, t, path)
  {
    var C' := C[..k] + [(C[k].0, I)];
    assert Roots(C') == Roots(C)[..k + 1];
    assert forall x :: x in Roots(C') ==> x in Roots(C);
    if V != [] {
      assert C'[0].0 == C[0].0;
    }
  }

  /** Merging keeps every V-state reaching the candidate of its group: the states of the
    * merged groups reach `q`, which reaches the surviving candidate. */
  lemma MergeGroups(a: Automaton, S: map<nat, Visit>, C: seq<Entry>, V: seq<nat>, t: nat, path: seq<nat>,
                    q: nat, k: nat, I: seq<nat>)
    requires StacksInv(S, C, V, t, path) && GroupsReach(a, S, C, V) && k < |C|
    requires forall j :: k <= j < |C| ==> Reaches(a.trans, C[j].0, q) && Reaches(a.trans, q, C[j].0)
    ensures GroupsReach(a, S, C[..k] + [(C[k].0, I)], V)
  {
    var C' := C[..k] + [(C[k].0, I)];
    forall x, l | x in V && 0 <= l < |C'| ensures GroupOf(S, C', x, l) ==> Reaches(a.trans, x, C'[l].0) {
      if l < k {
        assert C'[l] == C[l] && C'[l + 1].0 == C[l + 1].0;
        assert GroupOf(S, C', x, l) <==> GroupOf(S, C, x, l);
      } else if GroupOf(S, C', x, l) {
        var j := GroupIndex(S, C, V, t, path, x);
        assert l == k && C'[l].0 == C[k].0;
        assert j >= k;
        ReachesTrans(a.trans, x, C[j].0, q);
        ReachesTrans(a.trans, x, q, C[k].0);
      }
    }
  }

  /** Merging with a witnessed colour keeps the colour invariant. */
  lemma MergeColour(a: Automaton, C: seq<Entry>, q: nat, k: nat, I: seq<nat>)
    requires ColourInv(a, C) && k < |C|
    requires Reaches(a.trans, C[k].0, q) && Reaches(a.trans, q, C[k].0)
    requires SortedSets.Increasing(I) && Witnessed(a, I, q)
    ensures ColourInv(a, C[..k] + [(C[k].0, I)])
  {
    WitnessMove(a, I, q, C[k].0);
    var C' := C[..k] + [(C[k].0, I)];
    forall l | 0 <= l < |C'| ensures SortedSets.Increasing(C'[l].1) && Witnessed(a, C'[l].1, C'[l].0) {
      if l < k {
        assert C'[l] == C[l];
      }
    }
  }

  /** Merging the groups from `r`'s upwards into one candidate keeps the whole invariant. */
  lemma MergeStep(a: Automaton, S: map<nat, Visit>, C: seq<Entry>, V: seq<nat>, t: nat, path: seq<nat>,
                  q: nat, k: nat, I: seq<nat>)
    requires Inv(a, S, C, V, t, path) && k < |C|
    requires forall j :: k <= j < |C| ==> Reaches(a.trans, C[j].0, q) && Reaches(a.trans, q, C[j].0)
    requires SortedSets.Increasing(I) && Witnessed(a, I, q)
    ensures Inv(a, S, C[..k] + [(C[k].0, I)], V, t, path)
  {
    MergeStacks(S, C, V, t, path, k, I);
    MergeGroups(a, S, C, V, t, path, q, k, I);
    MergeColour(a, C, q, k, I);
  }

  /** Finishing `q` when it is not the top candidate: `q` is no candidate at all (it was
    * merged into an older group), so it just stops running. */
  lemma FinishKeep(a: Automaton, S: map<nat, Visit>, C: seq<Entry>, V: seq<nat>, t: nat, path0: seq<nat>, q: nat)
    requires Inv(a, S, C, V, t, path0 + [q]) && C != [] && C[|C| - 1].0 != q
    ensures Inv(a, S, C, V, t, path0)
  {
    var path := path0 + [q];
    var R := Roots(C);
    var top := R[|C| - 1];
    assert top in path;
    var it :| 0 <= it < |path| && path[it] == top;
    assert it < |path0| && path[|path| - 1] == q;
    assert Time(S, top) < Time(S, q);
    forall x | x in R ensures x in path0 {
      var j :| 0 <= j < |R| && R[j] == x;
      assert Time(S, x) <= Time(S, top);
      assert x in path && x != q;
    }
    forall i, j | 0 <= i < j < |path0| ensures Time(S, path0[i]) < Time(S, path0[j]) {
      assert path0[i] == path[i] && path0[j] == path[j];
    }
    assert forall x :: x in path0 ==> x in path;
  }

  /** Popping `q`'s group off V: what stays on V is the prefix below `q`, and no state
    * sits both below and above `q`. */
  lemma FinishPopV(S: map<nat, Visit>, V: seq<nat>, iq: nat, S': map<nat, Visit>)
    requires Ordered(S, V) && (forall x :: x in V <==> OnV(S, x)) && iq < |V|
    requires forall x :: OnV(S', x) <==> OnV(S, x) && x !in V[iq..]
    ensures forall x :: x in V[..iq] <==> OnV(S', x)
    ensures forall x :: x in V[..iq] ==> Time(S, x) < Time(S, V[iq])
  {
    var V' := V[..iq];
    forall i | iq <= i < |V| ensures V[i] in V[iq..] {
      assert V[iq..][i - iq] == V[i];
    }
    forall i | 0 <= i < iq ensures V'[i] == V[i] && V[i] !in V[iq..] && Time(S, V[i]) < Time(S, V[iq]) {
      forall i' | iq <= i' < |V| ensures V[i'] != V[i] {
        assert Time(S, V[i]) < Time(S, V[i']);
      }
    }
  }

  /** Ordering by discovery time only depends on the times. */
  lemma OrderedSameTimes(S: map<nat, Visit>, S': map<nat, Visit>, s: seq<nat>)
    requires Ordered(S, s) && forall x :: Time(S', x) == Time(S, x)
    ensures Ordered(S', s)
  {
  }

  /** A prefix of an ordered sequence is ordered. */
  lemma OrderedPrefix(S: map<nat, Visit>, s: seq<nat>, n: nat)
    requires Ordered(S, s) && n <= |s|
    ensures Ordered(S, s[..n])
  {
    forall i, j | 0 <= i < j < n ensures Time(S, s[..n][i]) < Time(S, s[..n][j]) {
      assert s[..n][i] == s[i] && s[..n][j] == s[j];
    }
  }

  /** When `q` stops running, the running states left are all below `q` on V, and the
    * candidates below `q`'s are all still running. */
  lemma FinishPopPath(S: map<nat, Visit>, C: seq<Entry>, V: seq<nat>, path0: seq<nat>, q: nat, iq: nat)
    requires Ordered(S, V) && Ordered(S, path0 + [q]) && Ordered(S, Roots(C))
    requires (forall x :: x in path0 + [q] ==> x in V) && (forall x :: x in Roots(C) ==> x in path0 + [q])
    requires C != [] && C[|C| - 1].0 == q && iq < |V| && V[iq] == q
    ensures forall x :: x in path0 ==> x in V[..iq]
    ensures forall x :: x in Roots(C[..|C| - 1]) ==> x in path0
  {
    var path := path0 + [q];
    forall i' | iq <= i' < |V| ensures Time(S, q) <= Time(S, V[i']) {
      if iq < i' {
        assert Time(S, V[iq]) < Time(S, V[i']);
      }
    }
    forall x | x in path0 ensures x in V[..iq] {
      var ip :| 0 <= ip < |path0| && path0[ip] == x;
      assert path[ip] == x && path[|path| - 1] == q;
      assert Time(S, x) < Time(S, q);
      assert x in V;
      var i :| 0 <= i < |V| && V[i] == x;
      assert V[..iq][i] == x;
    }
    var R := Roots(C);
    assert Roots(C[..|C| - 1]) == R[..|C| - 1];
    forall x | x in R[..|C| - 1] ensures x in path0 {
      var j :| 0 <= j < |C| - 1 && R[j] == x;
      assert Time(S, R[j]) < Time(S, R[|C| - 1]);
      assert x in path && x != q;
    }
  }

  /** Finishing `q` when it is the top candidate, stacks part: `q`'s group (everything on
    * V from `q` up) leaves V and loses its on-V bit, and its candidate is popped. */
  lemma FinishPopStacks(S: map<nat, Visit>, C: seq<Entry>, V: seq<nat>, t: nat, path0: seq<nat>, q: nat,
                        iq: nat, S': map<nat, Visit>)
    requires StacksInv(S, C, V, t, path0 + [q]) && C != [] && C[|C| - 1].0 == q
    requires iq < |V| && V[iq] == q
    requires S'.Keys == S.Keys && forall x :: Time(S', x) == Time(S, x)
    requires forall x :: OnV(S', x) <==> OnV(S, x) && x !in V[iq..]
    ensures StacksInv(S', C[..|C| - 1], V[..iq], t, path0)
  {
    var C', V' := C[..|C| - 1], V[..iq];
    FinishPopV(S, V, iq, S');
    FinishPopPath(S, C, V, path0, q, iq);
    OrderedPrefix(S, V, iq);
    OrderedPrefix(S, path0 + [q], |path0|);
    assert (path0 + [q])[..|path0|] == path0;
    assert Roots(C') == Roots(C)[..|C| - 1];
    OrderedPrefix(S, Roots(C), |C| - 1);
    OrderedSameTimes(S, S', V');
    OrderedSameTimes(S, S', path0);
    OrderedSameTimes(S, S', Roots(C'));
    if V' != [] {
      assert V[0] in V';
      assert |C| >= 2 && C'[0] == C[0];
    }
  }

  /** Finishing `q` when it is the top candidate, reachability part. */
  lemma FinishPopReach(a: Automaton, S: map<nat, Visit>, C: seq<Entry>, V: seq<nat>, t: nat, path0: seq<nat>,
                       q: nat, iq: nat, S': map<nat, Visit>)
    requires StacksInv(S, C, V, t, path0 + [q]) && ReachInv(a, S, C, V, path0 + [q])
    requires C != [] && C[|C| - 1].0 == q && iq < |V| && V[iq] == q
    requires S'.Keys == S.Keys && forall x :: Time(S', x) == Time(S, x)
    ensures ReachInv(a, S', C[..|C| - 1], V[..iq], path0)
  {
    var C', V' := C[..|C| - 1], V[..iq];
    assert forall x :: x in V' ==> x in V;
    assert forall x :: x in path0 ==> x in path0 + [q];
    forall x, l | x in V' && 0 <= l < |C'| ensures GroupOf(S', C', x, l) ==> Reaches(a.trans, x, C'[l].0) {
      var i :| 0 <= i < iq && V'[i] == x;
      assert V[i] == x && Time(S, V[i]) < Time(S, V[iq]);
      assert C'[l] == C[l] && (l + 1 < |C'| ==> C'[l + 1] == C[l + 1]);
      assert GroupOf(S', C', x, l) ==> GroupOf(S, C, x, l);
    }
  }

  /** Finishing `q` when it is the top candidate keeps the whole invariant. */
  lemma FinishPop(a: Automaton, S: map<nat, Visit>, C: seq<Entry>, V: seq<nat>, t: nat, path0: seq<nat>,
                  q: nat, iq: nat, S': map<nat, Visit>)
    requires Inv(a, S, C, V, t, path0 + [q]) && C != [] && C[|C| - 1].0 == q
    requires iq < |V| && V[iq] == q
    requires S'.Keys == S.Keys && forall x :: Time(S', x) == Time(S, x)
    requires forall x :: OnV(S', x) <==> OnV(S, x) && x !in V[iq..]
    ensures Inv(a, S', C[..|C| - 1], V[..iq], t, path0)
  {
    FinishPopStacks(S, C, V, t, path0, q, iq, S');
    FinishPopReach(a, S, C, V, t, path0, q, iq, S');
    var C' := C[..|C| - 1];
    forall l | 0 <= l < |C'| ensures SortedSets.Increasing(C'[l].1) && Witnessed(a, C'[l].1, C'[l].0) {
      assert C'[l] == C[l];
    }
  }

  /** Advancing the clock keeps the invariant: every time stays below it. */
  lemma ClockTick(a: Automaton, S: map<nat, Visit>, C: seq<Entry>, V: seq<nat>, t: nat, path: seq<nat>)
    requires Inv(a, S, C, V, t, path)
    ensures Inv(a, S, C, V, t + 1, path)
  {
  }

  // ---- what the search has ruled out

  /** The candidate of `x`'s group was discovered no later than `z`. */
  ghost predicate RootNoLater(S: map<nat, Visit>, C: seq<Entry>, x: nat, z: nat)
  {
    forall k :: 0 <= k < |C| && GroupOf(S, C, x, k) ==> Time(S, C[k].0) <= Time(S, z)
  }

  /** Merging anything into candidate `k` would be reported: for a generalized automaton
    * its colour covers every acceptance set, for a simple one its state is accepting. */
  ghost predicate Full(a: Automaton, C: seq<Entry>, k: nat)
    requires k < |C|
  {
    if a.IsGeneralized() then |C[k].1| == |a.finals| else a.InFinalSet(C[k].0, 0)
  }

  /** The candidate of `x`'s group is not full. */
  ghost predicate NotFull(a: Automaton, S: map<nat, Visit>, C: seq<Entry>, x: nat)
  {
    forall k :: 0 <= k < |C| && GroupOf(S, C, x, k) ==> !Full(a, C, k)
  }

  /** The acceptance sets holding `x` are accounted for by candidate `k`: they are in its
    * colour (generalized), or an accepting `x` is the candidate itself (simple). */
  ghost predicate Absorbed(a: Automaton, C: seq<Entry>, k: nat, x: nat)
    requires k < |C|
  {
    if a.IsGeneralized() then forall i :: 0 <= i < |a.finals| && x in a.finals[i] ==> i in C[k].1
    else a.InFinalSet(x, 0) ==> x == C[k].0
  }

  /** The edges from `x` to the states of `R` have been handled: each target is
    * discovered, one still on V was discovered no earlier than the candidate of `x`'s
    * group, and a self-loop has left `x` in a group whose candidate is not full. */
  ghost predicate Handled(a: Automaton, S: map<nat, Visit>, C: seq<Entry>, x: nat, R: set<nat>)
  {
    forall z :: z in R ==>
      && z in S
      && (OnV(S, z) ==> RootNoLater(S, C, x, z))
      && (z == x ==> NotFull(a, S, C, x))
  }

  /** `x` is discovered and no longer on V. */
  predicate Finished(S: map<nat, Visit>, x: nat)
  {
    x in S && !S[x].0
  }

  /** A finished state (discovered, off V) has only finished successors and lies on no
    * accepting lasso. */
  ghost predicate DoneInv(a: Automaton, S: map<nat, Visit>)
  {
    forall x {:trigger Finished(S, x)} :: Finished(S, x) ==>
      && Succ(a.trans, x) <= S.Keys
      && (forall z :: z in Succ(a.trans, x) ==> !OnV(S, z))
      && !a.AcceptingCycleAt(x)
  }

  /** A V-state whose call has returned has handled all its edges. */
  ghost predicate LiveInv(a: Automaton, S: map<nat, Visit>, C: seq<Entry>, V: seq<nat>, path: seq<nat>)
  {
    forall y :: y in V && y !in path ==> Handled(a, S, C, y, Succ(a.trans, y))
  }

  /** Every V-state is absorbed by the candidate of its group, and a full candidate is
    * alone in its group. */
  ghost predicate GroupInv(a: Automaton, S: map<nat, Visit>, C: seq<Entry>, V: seq<nat>)
  {
    forall x, k :: x in V && 0 <= k < |C| && GroupOf(S, C, x, k) ==>
      Absorbed(a, C, k, x) && (Full(a, C, k) ==> x == C[k].0)
  }

  /** What the search has ruled out so far, kept beside `Inv`. */
  ghost predicate SearchedInv(a: Automaton, S: map<nat, Visit>, C: seq<Entry>, V: seq<nat>, path: seq<nat>)
  {
    DoneInv(a, S) && LiveInv(a, S, C, V, path) && GroupInv(a, S, C, V)
  }

  /** From one state of the search to a later one: no state is forgotten or restamped,
    * none returns to V, and one that stays on V keeps a group candidate at least as old
    * as before and no fuller. */
  ghost predicate Progress(a: Automaton, S: map<nat, Visit>, C: seq<Entry>, S': map<nat, Visit>, C': seq<Entry>)
  {
    && S.Keys <= S'.Keys
    && (forall x :: x in S ==> Time(S', x) == Time(S, x) && (OnV(S', x) ==> OnV(S, x)))
    && (forall x, z :: x in S && z in S && OnV(S', x) && RootNoLater(S, C, x, z) ==> RootNoLater(S', C', x, z))
    && (forall x :: x in S && OnV(S', x) && NotFull(a, S, C, x) ==> NotFull(a, S', C', x))
  }

  lemma ProgressRefl(a: Automaton, S: map<nat, Visit>, C: seq<Entry>)
    ensures Progress(a, S, C, S, C)
  {
  }

  lemma ProgressTrans(a: Automaton, S1: map<nat, Visit>, C1: seq<Entry>, S2: map<nat, Visit>, C2: seq<Entry>,
                      S3: map<nat, Visit>, C3: seq<Entry>)
    requires Progress(a, S1, C1, S2, C2) && Progress(a, S2, C2, S3, C3)
    ensures Progress(a, S1, C1, S3, C3)
  {
    forall x, z | x in S1 && z in S1 && OnV(S3, x) && RootNoLater(S1, C1, x, z)
      ensures RootNoLater(S3, C3, x, z)
    {
      assert x in S2 && z in S2 && OnV(S2, x);
    }
    forall x | x in S1 && OnV(S3, x) && NotFull(a, S1, C1, x) ensures NotFull(a, S3, C3, x) {
      assert x in S2 && OnV(S2, x);
    }
  }

  /** Handled edges stay handled as the search goes on, while their source stays on V. */
  lemma HandledKept(a: Automaton, S: map<nat, Visit>, C: seq<Entry>, S': map<nat, Visit>, C': seq<Entry>,
                    x: nat, R: set<nat>)
    requires Progress(a, S, C, S', C') && Handled(a, S, C, x, R) && x in S && OnV(S', x)
    ensures Handled(a, S', C', x, R)
  {
    forall z | z in R ensures z in S' && (OnV(S', z) ==> RootNoLater(S', C', x, z)) {
      assert z in S;
    }
  }

  /** The returned V-states after a step are returned V-states from before, or have just
    * handled all their edges. */
  lemma LiveKept(a: Automaton, S: map<nat, Visit>, C: seq<Entry>, V: seq<nat>, path: seq<nat>,
                 S': map<nat, Visit>, C': seq<Entry>, V': seq<nat>, path': seq<nat>)
    requires LiveInv(a, S, C, V, path) && Progress(a, S, C, S', C')
    requires forall y :: y in V' && y !in path' ==>
      (y in V && y !in path && y in S && OnV(S', y)) || Handled(a, S', C', y, Succ(a.trans, y))
    ensures LiveInv(a, S', C', V', path')
  {
    forall y | y in V' && y !in path' ensures Handled(a, S', C', y, Succ(a.trans, y)) {
      if y in V && y !in path && y in S && OnV(S', y) {
        HandledKept(a, S, C, S', C', y, Succ(a.trans, y));
      }
    }
  }

  /** Discovering `q` changes no existing group: `q` is stamped after every V-state. */
  lemma DiscoverGroupOf(S: map<nat, Visit>, C: seq<Entry>, V: seq<nat>, t: nat, path: seq<nat>,
                        q: nat, colour: seq<nat>, x: nat, k: nat)
    requires StacksInv(S, C, V, t, path) && q !in S && x in V && k <= |C|
    ensures GroupOf(S[q := (true, t + 1)], C + [(q, colour)], x, k) <==> k < |C| && GroupOf(S, C, x, k)
    ensures k < |C| ==> (C + [(q, colour)])[k] == C[k] && C[k].0 in S
  {
    var S', C' := S[q := (true, t + 1)], C + [(q, colour)];
    assert Time(S', x) == Time(S, x) <= t;
    if k < |C| {
      assert C'[k] == C[k] && C[k].0 in Roots(C);
      if k + 1 < |C| {
        assert C'[k + 1] == C[k + 1] && C[k + 1].0 in Roots(C);
      }
    }
  }

  lemma DiscoverProgress(a: Automaton, S: map<nat, Visit>, C: seq<Entry>, V: seq<nat>, t: nat, path: seq<nat>,
                         q: nat, colour: seq<nat>)
    requires StacksInv(S, C, V, t, path) && q !in S
    ensures Progress(a, S, C, S[q := (true, t + 1)], C + [(q, colour)])
  {
    var S', C' := S[q := (true, t + 1)], C + [(q, colour)];
    forall x, z | x in S && z in S && OnV(S', x) && RootNoLater(S, C, x, z) ensures RootNoLater(S', C', x, z) {
      forall k | 0 <= k < |C'| && GroupOf(S', C', x, k) ensures Time(S', C'[k].0) <= Time(S', z) {
        DiscoverGroupOf(S, C, V, t, path, q, colour, x, k);
      }
    }
    forall x | x in S && OnV(S', x) && NotFull(a, S, C, x) ensures NotFull(a, S', C', x) {
      forall k | 0 <= k < |C'| && GroupOf(S', C', x, k) ensures !Full(a, C', k) {
        DiscoverGroupOf(S, C, V, t, path, q, colour, x, k);
      }
    }
  }

  /** Discovering `q` keeps what was ruled out: `q` starts a group of its own whose colour
    * holds every acceptance set that `q` is in. */
  lemma DiscoverSearched(a: Automaton, S: map<nat, Visit>, C: seq<Entry>, V: seq<nat>, t: nat, path: seq<nat>,
                         q: nat, colour: seq<nat>)
    requires StacksInv(S, C, V, t, path) && SearchedInv(a, S, C, V, path) && q !in S
    requires a.IsGeneralized() ==> forall i :: 0 <= i < |a.finals| && q in a.finals[i] ==> i in colour
    ensures SearchedInv(a, S[q := (true, t + 1)], C + [(q, colour)], V + [q], path + [q])
    ensures Progress(a, S, C, S[q := (true, t + 1)], C + [(q, colour)])
  {
    var S', C', V', path' := S[q := (true, t + 1)], C + [(q, colour)], V + [q], path + [q];
    DiscoverProgress(a, S, C, V, t, path, q, colour);
    forall x | Finished(S', x)
      ensures Succ(a.trans, x) <= S'.Keys && (forall z :: z in Succ(a.trans, x) ==> !OnV(S', z))
      ensures !a.AcceptingCycleAt(x)
    {
      assert Finished(S, x);
    }
    LiveKept(a, S, C, V, path, S', C', V', path');
    forall x, k | x in V' && 0 <= k < |C'| && GroupOf(S', C', x, k)
      ensures Absorbed(a, C', k, x) && (Full(a, C', k) ==> x == C'[k].0)
    {
      if x != q {
        DiscoverGroupOf(S, C, V, t, path, q, colour, x, k);
      }
    }
  }

  /** After the candidates from `k` upwards are merged, the group of a V-state is its old
    * one below `k`, or the merged one if its old one was from `k` upwards. */
  lemma MergeGroupOf(S: map<nat, Visit>, C: seq<Entry>, V: seq<nat>, t: nat, path: seq<nat>,
                     k: nat, I: seq<nat>, x: nat, l: nat) returns (j: nat)
    requires StacksInv(S, C, V, t, path) && k < |C| && x in V && l <= k
    requires GroupOf(S, C[..k] + [(C[k].0, I)], x, l)
    ensures j < |C| && GroupOf(S, C, x, j)
    ensures l < k ==> j == l && (C[..k] + [(C[k].0, I)])[l] == C[l]
    ensures l == k ==> k <= j && Time(S, C[k].0) <= Time(S, C[j].0)
  {
    var C' := C[..k] + [(C[k].0, I)];
    j := GroupIndex(S, C, V, t, path, x);
    if l < k {
      assert C'[l] == C[l] && C'[l + 1].0 == C[l + 1].0;
    } else if k < j {
      assert Roots(C)[k] == C[k].0 && Roots(C)[j] == C[j].0;
    }
  }

  /** The colours of the candidates from `k` upwards include each one's own. */
  lemma {:induction false} ColoursContain(C: seq<Entry>, k: nat, j: nat)
    requires k <= j < |C|
    ensures SortedSets.Elems(C[j].1) <= Colours(C, k)
    decreases j - k
  {
    if k < j {
      ColoursContain(C, k + 1, j);
    }
  }

  /** Merging keeps what was ruled out, and the merged candidate is not full: a full one
    * would have been reported. */
  lemma MergeSearched(a: Automaton, S: map<nat, Visit>, C: seq<Entry>, V: seq<nat>, t: nat, path: seq<nat>,
                      k: nat, C': seq<Entry>)
    requires StacksInv(S, C, V, t, path) && SearchedInv(a, S, C, V, path) && k < |C|
    requires |C'| == k + 1 && C'[..k] == C[..k] && C'[k].0 == C[k].0
    requires a.IsGeneralized() ==> SortedSets.Elems(C'[k].1) == Colours(C, k) && |C'[k].1| != |a.finals|
    requires !a.IsGeneralized() ==> forall j :: k <= j < |C| ==> !a.InFinalSet(C[j].0, 0)
    ensures SearchedInv(a, S, C', V, path) && Progress(a, S, C, S, C') && !Full(a, C', k)
  {
    var I := C'[k].1;
    assert C' == C[..k] + [(C[k].0, I)];
    forall x, z | x in S && z in S && OnV(S, x) && RootNoLater(S, C, x, z) ensures RootNoLater(S, C', x, z) {
      forall l | 0 <= l < |C'| && GroupOf(S, C', x, l) ensures Time(S, C'[l].0) <= Time(S, z) {
        var j := MergeGroupOf(S, C, V, t, path, k, I, x, l);
      }
    }
    forall x | x in S && OnV(S, x) && NotFull(a, S, C, x) ensures NotFull(a, S, C', x) {
      forall l | 0 <= l < |C'| && GroupOf(S, C', x, l) ensures !Full(a, C', l) {
        var j := MergeGroupOf(S, C, V, t, path, k, I, x, l);
      }
    }
    LiveKept(a, S, C, V, path, S, C', V, path);
    forall x, l | x in V && 0 <= l < |C'| && GroupOf(S, C', x, l)
      ensures Absorbed(a, C', l, x) && (Full(a, C', l) ==> x == C'[l].0)
    {
      var j := MergeGroupOf(S, C, V, t, path, k, I, x, l);
      if l == k {
        if a.IsGeneralized() {
          ColoursContain(C, k, j);
        } else {
          assert !a.InFinalSet(C[j].0, 0);
        }
      }
    }
  }

  /** The innermost running state belongs to the top group. */
  lemma TopGroup(S: map<nat, Visit>, C: seq<Entry>, V: seq<nat>, t: nat, path: seq<nat>, q: nat, l: nat)
    requires StacksInv(S, C, V, t, path) && path != [] && path[|path| - 1] == q
    requires l < |C| && GroupOf(S, C, q, l)
    ensures l == |C| - 1
  {
    PathBeforeTop(S, path);
    forall j | 0 <= j < |C| ensures C[j].0 in path {
      assert Roots(C)[j] == C[j].0;
    }
  }

  /** No running state was discovered after the innermost one. */
  lemma PathBeforeTop(S: map<nat, Visit>, path: seq<nat>)
    requires Ordered(S, path) && path != []
    ensures forall p :: p in path ==> Time(S, p) <= Time(S, path[|path| - 1])
  {
    forall p | p in path ensures Time(S, p) <= Time(S, path[|path| - 1]) {
      var i :| 0 <= i < |path| && path[i] == p;
      if i < |path| - 1 {
        assert Time(S, path[i]) < Time(S, path[|path| - 1]);
      }
    }
  }

  /** The edge from `q` back to `r` is handled once the merge has put `q` in the group of
    * `r`'s old candidate, which is not full. */
  lemma MergeHandled(a: Automaton, S: map<nat, Visit>, C': seq<Entry>, V: seq<nat>, t: nat, path: seq<nat>,
                     q: nat, r: nat, k: nat)
    requires StacksInv(S, C', V, t, path) && path != [] && path[|path| - 1] == q
    requires |C'| == k + 1 && Time(S, C'[k].0) <= Time(S, r) && r in S && !Full(a, C', k)
    ensures Handled(a, S, C', q, {r})
  {
    forall l | 0 <= l < |C'| && GroupOf(S, C', q, l) ensures l == k {
      TopGroup(S, C', V, t, path, q, l);
    }
  }

  /** After `q`'s group leaves V, a state below `q` keeps its group. */
  lemma PopGroupOf(S: map<nat, Visit>, S': map<nat, Visit>, C: seq<Entry>, x: nat, l: nat)
    requires C != [] && Time(S, x) < Time(S, C[|C| - 1].0) && l < |C| - 1
    requires forall y :: Time(S', y) == Time(S, y)
    ensures GroupOf(S', C[..|C| - 1], x, l) <==> GroupOf(S, C, x, l)
    ensures C[..|C| - 1][l] == C[l]
  {
    var C' := C[..|C| - 1];
    assert C'[l] == C[l] && (l + 1 < |C'| ==> C'[l + 1] == C[l + 1]);
  }

  /** A sorted list of indices below `K` that holds every index below `K` has `K` entries. */
  lemma {:induction false} CoveringIndices(I: seq<nat>, K: nat)
    requires SortedSets.Increasing(I) && (forall i :: i in I ==> i < K)
    requires forall i :: 0 <= i < K ==> i in I
    ensures |I| == K
  {
    if |I| > 0 {
      BoundsBelow(I, |I| - 1);
      assert I[|I| - 1] in I;
    }
    if |I| < K {
      assert |I| in I;
      var l :| 0 <= l < |I| && I[l] == |I|;
      IndexIsValue(I, K, l);
    }
  }

  lemma {:induction false} IndexIsValue(I: seq<nat>, K: nat, j: nat)
    requires SortedSets.Increasing(I) && (forall i :: 0 <= i < K ==> i in I)
    requires j < |I| && j < K
    ensures I[j] == j
    decreases j
  {
    assert j in I;
    var l :| 0 <= l < |I| && I[l] == j;
    BoundsBelow(I, l);
    BoundsBelow(I, j);
    if l < j {
      IndexIsValue(I, K, l);
    }
  }

  /** A state on a common cycle with a member `y` of the set `G`, where `G` and the set `D`
    * together are closed under successors, `D` alone is closed too and `y` is not in `D`,
    * is itself in `G`. */
  lemma CycleMate(g: Graph<nat>, G: set<nat>, D: set<nat>, y: nat, w: nat)
    requires y in G && y !in D
    requires forall x :: x in G + D ==> Succ(g, x) <= G + D
    requires forall x :: x in D ==> Succ(g, x) <= D
    requires Reaches(g, y, w) && Reaches(g, w, y)
    ensures w in G
  {
    ClosedReach(g, G + D, y, w);
    if w in D {
      ClosedReach(g, D, w, y);
    }
  }

  /** No state of `q`'s group lies on an accepting lasso: such a lasso stays inside the
    * group (the finished states cannot lead back to V), so the group's colour would cover
    * every acceptance set (or the group would hold an accepting state), making the
    * candidate full; a full candidate is alone in its group, so the lasso is a self-loop
    * on `q`, and that self-loop left `q` in a group that is not full. */
  lemma PopNoLasso(a: Automaton, S: map<nat, Visit>, C: seq<Entry>, V: seq<nat>, q: nat, iq: nat, y: nat)
    requires a.Valid() && DoneInv(a, S) && GroupInv(a, S, C, V) && ColourInv(a, C)
    requires forall x :: x in V <==> OnV(S, x)
    requires Handled(a, S, C, q, Succ(a.trans, q))
    requires C != [] && C[|C| - 1].0 == q && iq < |V| && V[iq] == q
    requires forall x :: x in V[iq..] ==> GroupOf(S, C, x, |C| - 1) && Succ(a.trans, x) <= S.Keys
    requires forall x, z :: x in V[iq..] && z in Succ(a.trans, x) && OnV(S, z) ==> z in V[iq..]
    requires y in V[iq..]
    ensures !a.AcceptingCycleAt(y)
  {
    var m := |C| - 1;
    var G := set x | x in V[iq..];
    var D := set x | x in S && Finished(S, x);
    forall x | x in G + D ensures Succ(a.trans, x) <= G + D {
      forall z | z in Succ(a.trans, x) ensures z in G + D {
        if x in G && OnV(S, z) {
          assert z in G;
        }
      }
    }
    if a.AcceptingCycleAt(y) {
      if a.IsGeneralized() {
        forall i | 0 <= i < |a.finals| ensures i in C[m].1 {
          var f :| f in a.finals[i] && Reaches(a.trans, y, f) && Reaches(a.trans, f, y);
          CycleMate(a.trans, G, D, y, f);
          assert f in V && Absorbed(a, C, m, f);
        }
        CoveringIndices(C[m].1, |a.finals|);
      } else {
        var f :| f in a.finals[0] && Reaches(a.trans, y, f) && Reaches(a.trans, f, y);
        CycleMate(a.trans, G, D, y, f);
        assert f in V && Absorbed(a, C, m, f);
      }
      var w := PlusLastEdge(a.trans, y, y);
      ReachesEdge(a.trans, w, y);
      CycleMate(a.trans, G, D, y, w);
      assert false;
    }
  }

  /** Every edge out of `q`'s group ends in a finished state or back in the group. */
  lemma PopClosed(a: Automaton, S: map<nat, Visit>, C: seq<Entry>, V: seq<nat>, t: nat, path0: seq<nat>,
                  q: nat, iq: nat, y: nat)
    requires StacksInv(S, C, V, t, path0 + [q]) && LiveInv(a, S, C, V, path0 + [q])
    requires Handled(a, S, C, q, Succ(a.trans, q))
    requires forall x :: x in path0 ==> Time(S, x) < Time(S, q)
    requires C != [] && C[|C| - 1].0 == q && iq < |V| && V[iq] == q && y in V[iq..]
    ensures GroupOf(S, C, y, |C| - 1)
    ensures Succ(a.trans, y) <= S.Keys
    ensures forall z :: z in Succ(a.trans, y) && OnV(S, z) ==> z in V[iq..]
  {
    var i' :| 0 <= i' < |V| - iq && V[iq..][i'] == y;
    var i := iq + i';
    assert V[i] == y;
    assert Time(S, q) <= Time(S, y) by {
      if iq < i {
        assert Time(S, V[iq]) < Time(S, V[i]);
      }
    }
    assert Handled(a, S, C, y, Succ(a.trans, y));
    forall z | z in Succ(a.trans, y) && OnV(S, z) ensures z in V[iq..] {
      assert Time(S, q) <= Time(S, z);
      var i2 :| 0 <= i2 < |V| && V[i2] == z;
      assert iq <= i2 by {
        if i2 < iq {
          assert false;
        }
      }
      assert V[iq..][i2 - iq] == z;
    }
  }

  /** Popping `q`'s group keeps the states that stay on V in their groups. */
  lemma PopProgress(a: Automaton, S: map<nat, Visit>, C: seq<Entry>, V: seq<nat>, iq: nat, S': map<nat, Visit>)
    requires C != [] && iq < |V| && V[iq] == C[|C| - 1].0
    requires S'.Keys == S.Keys && forall x :: Time(S', x) == Time(S, x)
    requires forall x :: OnV(S', x) <==> OnV(S, x) && x !in V[iq..]
    requires forall x :: x in V[..iq] <==> OnV(S', x)
    requires forall x :: x in V[..iq] ==> Time(S, x) < Time(S, V[iq])
    ensures Progress(a, S, C, S', C[..|C| - 1])
  {
    var C' := C[..|C| - 1];
    forall x, z | x in S && z in S && OnV(S', x) && RootNoLater(S, C, x, z) ensures RootNoLater(S', C', x, z) {
      forall l | 0 <= l < |C'| && GroupOf(S', C', x, l) ensures Time(S', C'[l].0) <= Time(S', z) {
        PopGroupOf(S, S', C, x, l);
      }
    }
    forall x | x in S && OnV(S', x) && NotFull(a, S, C, x) ensures NotFull(a, S', C', x) {
      forall l | 0 <= l < |C'| && GroupOf(S', C', x, l) ensures !Full(a, C', l) {
        PopGroupOf(S, S', C, x, l);
      }
    }
  }

  /** Finishing `q` when it is the top candidate keeps what was ruled out: the popped
    * group only leads to finished states or back into itself, so it becomes finished
    * without an accepting lasso through any of its states. */
  lemma FinishPopSearched(a: Automaton, S: map<nat, Visit>, C: seq<Entry>, V: seq<nat>, t: nat, path0: seq<nat>,
                          q: nat, iq: nat, S': map<nat, Visit>)
    requires a.Valid() && Inv(a, S, C, V, t, path0 + [q]) && SearchedInv(a, S, C, V, path0 + [q])
    requires Handled(a, S, C, q, Succ(a.trans, q))
    requires C != [] && C[|C| - 1].0 == q && iq < |V| && V[iq] == q
    requires S'.Keys == S.Keys && forall x :: Time(S', x) == Time(S, x)
    requires forall x :: OnV(S', x) <==> OnV(S, x) && x !in V[iq..]
    ensures SearchedInv(a, S', C[..|C| - 1], V[..iq], path0)
    ensures Progress(a, S, C, S', C[..|C| - 1])
  {
    var C', V' := C[..|C| - 1], V[..iq];
    FinishPopV(S, V, iq, S');
    FinishPopPath(S, C, V, path0, q, iq);
    PopProgress(a, S, C, V, iq, S');
    forall y | y in V[iq..]
      ensures GroupOf(S, C, y, |C| - 1) && Succ(a.trans, y) <= S.Keys
      ensures forall z :: z in Succ(a.trans, y) && OnV(S, z) ==> z in V[iq..]
    {
      PopClosed(a, S, C, V, t, path0, q, iq, y);
    }
    forall x | Finished(S', x)
      ensures Succ(a.trans, x) <= S'.Keys && (forall z :: z in Succ(a.trans, x) ==> !OnV(S', z))
      ensures !a.AcceptingCycleAt(x)
    {
      if OnV(S, x) {
        PopNoLasso(a, S, C, V, q, iq, x);
      } else {
        assert Finished(S, x);
      }
    }
    forall y | y in V' && y !in path0
      ensures y in V && y !in path0 + [q] && y in S && OnV(S', y)
    {
    }
    LiveKept(a, S, C, V, path0 + [q], S', C', V', path0);
    forall x, l | x in V' && 0 <= l < |C'| && GroupOf(S', C', x, l)
      ensures Absorbed(a, C', l, x) && (Full(a, C', l) ==> x == C'[l].0)
    {
      PopGroupOf(S, S', C, x, l);
    }
  }

  /** Finishing `q` when it stays on V: it has handled all its edges. */
  lemma FinishKeepSearched(a: Automaton, S: map<nat, Visit>, C: seq<Entry>, V: seq<nat>, path0: seq<nat>, q: nat)
    requires SearchedInv(a, S, C, V, path0 + [q]) && Handled(a, S, C, q, Succ(a.trans, q))
    requires forall x :: x in V ==> OnV(S, x)
    ensures SearchedInv(a, S, C, V, path0)
  {
    ProgressRefl(a, S, C);
    LiveKept(a, S, C, V, path0 + [q], S, C, V, path0);
  }

  /** The edge from `q` to a state `r` searched by the recursive call is handled: `r` was
    * discovered after `q`, so after any candidate of `q`'s group. */
  lemma RecursedHandled(a: Automaton, S: map<nat, Visit>, C: seq<Entry>, V: seq<nat>, t: nat, path: seq<nat>,
                        q: nat, r: nat, S': map<nat, Visit>, C': seq<Entry>)
    requires StacksInv(S, C, V, t, path) && path != [] && path[|path| - 1] == q && r !in S
    requires Progress(a, S, C, S', C') && r in S' && Time(S', r) == t + 1
    ensures Handled(a, S', C', q, {r})
  {
    assert q in path && q in V && q in S;
  }

  /** When the outermost call returns without a lasso, every discovered state is finished;
    * the discovered states hold the initial state and are closed under successors, so no
    * reachable state lies on an accepting lasso. */
  lemma SearchComplete(a: Automaton, S: map<nat, Visit>, C: seq<Entry>, V: seq<nat>, t: nat)
    requires StacksInv(S, C, V, t, []) && DoneInv(a, S) && InitialState in S
    ensures !a.NonEmpty()
  {
    if C != [] {
      FirstRoot(C);
      assert false;
    }
    forall x | x in S.Keys ensures Succ(a.trans, x) <= S.Keys {
      assert !OnV(S, x);
      assert Finished(S, x);
    }
    forall s | Reaches(a.trans, InitialState, s) ensures !a.AcceptingCycleAt(s) {
      ClosedReach(a.trans, S.Keys, InitialState, s);
      assert !OnV(S, s);
      assert Finished(S, s);
    }
  }

  /** The bottom candidate is among the candidates' states. */
  lemma FirstRoot(C: seq<Entry>)
    requires C != []
    ensures C[0].0 in Roots(C)
  {
    assert Roots(C)[0] == C[0].0;
  }

  /** The popping loop of lines 80-84: pop V down to and including `q`, clearing each
    * popped state's on-V bit. */
  method PopGroup(S: map<nat, Visit>, V: seq<nat>, q: nat, ghost iq: nat) returns (S': map<nat, Visit>, V': seq<nat>)
    requires Ordered(S, V) && iq < |V| && V[iq] == q && forall x :: x in V ==> x in S
    ensures V' == V[..iq]
    ensures S'.Keys == S.Keys && forall x :: Time(S', x) == Time(S, x)
    ensures forall x :: OnV(S', x) <==> OnV(S, x) && x !in V[iq..]
  {
    S', V' := S, V;
    var popping := true;
    while popping
      invariant V' == V[..|V'|] && (popping ==> iq < |V'|) && (!popping ==> |V'| == iq)
      invariant S'.Keys == S.Keys && forall x :: Time(S', x) == Time(S, x)
      invariant forall x :: OnV(S', x) <==> OnV(S, x) && x !in V[|V'|..]
      decreases |V'|
    {
      var n := |V'|;
      var s := V'[n - 1];
      assert V[n - 1..] == [s] + V[n..];
      V' := V'[..n - 1];
      S' := S'[s := (false, S'[s].1)];
      popping := s != q;
      if !popping {
        OrderedDistinct(S, V, n - 1, iq);
      }
    }
  }

  /** Leaving `dfs(q)` (lines 76-85): if `q` is still the top candidate, nothing above it
    * can reach an older state any more, so its candidate is popped and its group is popped
    * off V; otherwise `q` belongs to an older group and everything stays. */
  method FinishState(ghost a: Automaton, q: nat, S: map<nat, Visit>, C: seq<Entry>, V: seq<nat>,
                     ghost t: nat, ghost path0: seq<nat>)
    returns (S': map<nat, Visit>, C': seq<Entry>, V': seq<nat>)
    requires a.Valid() && Inv(a, S, C, V, t, path0 + [q]) && SearchedInv(a, S, C, V, path0 + [q])
    requires Handled(a, S, C, q, Succ(a.trans, q))
    ensures Inv(a, S', C', V', t, path0) && SearchedInv(a, S', C', V', path0)
    ensures S'.Keys == S.Keys && forall x :: Time(S', x) == Time(S, x)
    ensures Progress(a, S, C, S', C')
  {
    assert q in V;
    if C[|C| - 1].0 != q {
      FinishKeep(a, S, C, V, t, path0, q);
      FinishKeepSearched(a, S, C, V, path0, q);
      ProgressRefl(a, S, C);
      return S, C, V;
    }
    ghost var iq :| 0 <= iq < |V| && V[iq] == q;
    C' := C[..|C| - 1];
    S', V' := PopGroup(S, V, q, iq);
    FinishPop(a, S, C, V, t, path0, q, iq, S');
    FinishPopSearched(a, S, C, V, t, path0, q, iq, S');
  }

  /** The acceptance-set indices in the colours of the candidates from `lo` upwards. */
  ghost function Colours(C: seq<Entry>, lo: nat): set<nat>
    decreases |C| - lo
  {
    if lo >= |C| then {} else SortedSets.Elems(C[lo].1) + Colours(C, lo + 1)
  }

  /** Candidate `e` shares a cycle with `q`, and its colour is sorted and witnessed by its
    * state: what the merge loop needs of each candidate it pops. */
  ghost predicate OnCycleWith(a: Automaton, e: Entry, q: nat)
  {
    && Reaches(a.trans, e.0, q) && Reaches(a.trans, q, e.0)
    && SortedSets.Increasing(e.1) && Witnessed(a, e.1, e.0)
  }

  /** `I` holds exactly the colours of the candidates from `lo` upwards. */
  ghost predicate Collected(C: seq<Entry>, lo: nat, I: seq<nat>)
  {
    SortedSets.Elems(I) == Colours(C, lo)
  }

  /** Collecting the colour of candidate `C[n - 1]` into the union `I` of the colours
    * above it. */
  lemma CollectStep(C: seq<Entry>, n: nat, I: seq<nat>, I': seq<nat>)
    requires 0 < n <= |C| && Collected(C, n, I)
    requires forall y :: y in I' <==> y in I || y in C[n - 1].1
    ensures Collected(C, n - 1, I')
  {
  }

  /** An index among the colours from `lo` upwards is in one candidate's colour. */
  lemma {:induction false} ColourSource(C: seq<Entry>, lo: nat, i: nat) returns (j: nat)
    requires i in Colours(C, lo)
    ensures lo <= j < |C| && i in C[j].1
    decreases |C| - lo
  {
    if i in SortedSets.Elems(C[lo].1) {
      j := lo;
    } else {
      j := ColourSource(C, lo + 1, i);
    }
  }

  /** A collected colour is witnessed at `q` when each collected candidate's colour is
    * witnessed by its state and that state shares a cycle with `q`. */
  lemma CollectedWitnessed(a: Automaton, C: seq<Entry>, lo: nat, I: seq<nat>, q: nat)
    requires Collected(C, lo, I)
    requires forall j {:trigger OnCycleWith(a, C[j], q)} :: lo <= j < |C| ==> OnCycleWith(a, C[j], q)
    ensures Witnessed(a, I, q)
  {
    forall i | i in I
      ensures i < |a.finals| && exists f :: f in a.finals[i] && Reaches(a.trans, q, f) && Reaches(a.trans, f, q)
    {
      var j := ColourSource(C, lo, i);
      assert OnCycleWith(a, C[j], q);
      WitnessMove(a, C[j].1, C[j].0, q);
    }
  }

  /** The merge loop of lines 50-72, on an edge from `q` back to a state `r` still on V,
    * where `C[k]` is the candidate of `r`'s group: pop candidates down to and including
    * `C[k]`, collecting their colours, and push `C[k]`'s state back with the collected
    * colour. A collected colour covering every acceptance set (for a generalized
    * automaton), or a popped accepting candidate (for a simple one), is an accepting lasso
    * through `q`: the result is then `false`. */
  method MergeCandidates(a: Automaton, q: nat, r: nat, S: map<nat, Visit>, C: seq<Entry>, ghost k: nat)
    returns (ok: bool, C': seq<Entry>)
    requires a.Valid() && k < |C|
    requires Time(S, C[k].0) <= Time(S, r) && forall j :: k < j < |C| ==> Time(S, r) < Time(S, C[j].0)
    requires forall j {:trigger OnCycleWith(a, C[j], q)} :: k <= j < |C| ==> OnCycleWith(a, C[j], q)
    requires Reaches(a.trans, InitialState, q) && ReachesPlus(a.trans, q, q)
    ensures ok ==> |C'| == k + 1 && C'[..k] == C[..k] && C'[k].0 == C[k].0
    ensures ok ==> SortedSets.Increasing(C'[k].1) && Witnessed(a, C'[k].1, q)
    ensures ok && a.IsGeneralized() ==> SortedSets.Elems(C'[k].1) == Colours(C, k) && |C'[k].1| != |a.finals|
    ensures ok && !a.IsGeneralized() ==> C'[k].1 == [] && forall j :: k <= j < |C| ==> !a.InFinalSet(C[j].0, 0)
    ensures !ok ==> a.NonEmpty()
  {
    var nga := a.IsGeneralized();
    var I: seq<nat> := [];
    var s: nat := 0;
    var n := |C|;  // the candidates still on the stack are C[..n]
    var popping := true;
    while popping
      invariant k <= n <= |C| && (popping ==> k < n) && (!popping ==> n == k && s == C[k].0)
      invariant SortedSets.Increasing(I)
      invariant nga ==> Collected(C, n, I) && (n < |C| ==> |I| != |a.finals|)
      invariant !nga ==> I == [] && forall j :: n <= j < |C| ==> !a.InFinalSet(C[j].0, 0)
      decreases n
    {
      var top := C[n - 1];
      s := top.0;
      assert OnCycleWith(a, top, q);
      if nga {
        var I0 := I;
        I := SortedSets.SetUnion(I, top.1);
        CollectStep(C, n, I0, I);
        if |I| == a.NumFinalSets() {
          CollectedWitnessed(a, C, n - 1, I, q);
          CoveredLasso(a, I, q);
          return false, C[..n];
        }
      } else {
        var accepting := IsFinal(a, s, None);
        if accepting {
          AcceptingLasso(a, s, q);
          return false, C[..n];
        }
      }
      n := n - 1;
      popping := Time(S, s) > Time(S, r);
      assert popping || n == k by {
        if k < n {
          assert Time(S, r) < Time(S, C[n].0);
        }
      }
    }
    if nga {
      CollectedWitnessed(a, C, k, I, q);
    }
    C' := C[..n] + [(s, I)];
    ok := true;
  }

  /** A merged colour covering every acceptance set: a lasso through `q`. */
  lemma CoveredLasso(a: Automaton, I: seq<nat>, q: nat)
    requires SortedSets.Increasing(I) && |I| == |a.finals| && Witnessed(a, I, q)
    requires Reaches(a.trans, InitialState, q) && ReachesPlus(a.trans, q, q)
    ensures a.NonEmpty()
  {
    AllIndices(I, |a.finals|);
    LassoAt(a, q);
  }

  /** A merged accepting candidate `s` of a simple automaton: a lasso through `q`. */
  lemma AcceptingLasso(a: Automaton, s: nat, q: nat)
    requires a.Valid() && !a.IsGeneralized() && a.Accepting(s)
    requires Reaches(a.trans, s, q) && Reaches(a.trans, q, s)
    requires Reaches(a.trans, InitialState, q) && ReachesPlus(a.trans, q, q)
    ensures a.NonEmpty()
  {
    assert s in a.finals[0];
    LassoAt(a, q);
  }

  /** What the merge loop relies on: `C[k]` is the candidate of `r`'s group, every
    * candidate from it upwards shares a cycle with `q`, and their colours are witnessed. */
  lemma MergeTarget(a: Automaton, S: map<nat, Visit>, C: seq<Entry>, V: seq<nat>, t: nat, path: seq<nat>,
                    q: nat, r: nat) returns (k: nat)
    requires Inv(a, S, C, V, t, path) && path != [] && path[|path| - 1] == q
    requires r in Succ(a.trans, q) && OnV(S, r)
    ensures k < |C|
    ensures Time(S, C[k].0) <= Time(S, r) && forall j :: k < j < |C| ==> Time(S, r) < Time(S, C[j].0)
    ensures forall j {:trigger OnCycleWith(a, C[j], q)} :: k <= j < |C| ==> OnCycleWith(a, C[j], q)
    ensures Reaches(a.trans, InitialState, q) && ReachesPlus(a.trans, q, q)
  {
    k := GroupIndex(S, C, V, t, path, r);
    MergeCycle(a, S, C, V, t, path, q, r, k);
    assert q in V;
  }

  /** The candidates the merge loop leaves behind satisfy the invariant again. */
  lemma MergeDone(a: Automaton, S: map<nat, Visit>, C: seq<Entry>, V: seq<nat>, t: nat, path: seq<nat>,
                  q: nat, k: nat, C': seq<Entry>)
    requires Inv(a, S, C, V, t, path) && k < |C|
    requires forall j {:trigger OnCycleWith(a, C[j], q)} :: k <= j < |C| ==> OnCycleWith(a, C[j], q)
    requires |C'| == k + 1 && C'[..k] == C[..k] && C'[k].0 == C[k].0
    requires SortedSets.Increasing(C'[k].1) && Witnessed(a, C'[k].1, q)
    ensures Inv(a, S, C', V, t, path)
  {
    forall j | k <= j < |C| ensures Reaches(a.trans, C[j].0, q) && Reaches(a.trans, q, C[j].0) {
      assert OnCycleWith(a, C[j], q);
    }
    MergeStep(a, S, C, V, t, path, q, k, C'[k].1);
    assert C' == C[..k] + [(C[k].0, C'[k].1)];
  }

  /** One successor `r` of the innermost running state `q` (lines 42-73): an undiscovered
    * one is searched recursively, one still on V triggers the merge, one already finished
    * is ignored. */
  method Step(a: Automaton, q: nat, r: nat, S: map<nat, Visit>, C: seq<Entry>, V: seq<nat>, t: nat,
              ghost path: seq<nat>)
    returns (ok: bool, S': map<nat, Visit>, C': seq<Entry>, V': seq<nat>, t': nat)
    requires a.Valid() && S.Keys <= a.States() && r in Succ(a.trans, q)
    requires Inv(a, S, C, V, t, path) && path != [] && path[|path| - 1] == q
    requires Reaches(a.trans, InitialState, q) && forall p :: p in path ==> Reaches(a.trans, p, q)
    requires SearchedInv(a, S, C, V, path)
    ensures S.Keys + {r} <= S'.Keys <= a.States() && t <= t'
    ensures ok ==> Inv(a, S', C', V', t', path)
    ensures ok ==> SearchedInv(a, S', C', V', path) && Progress(a, S, C, S', C') && Handled(a, S', C', q, {r})
    ensures !ok ==> a.NonEmpty()
    decreases |a.States() - S.Keys|, 1
  {
    S', C', V', t' := S, C, V, t;
    if r !in S {
      ReachesStep(a.trans, InitialState, q, r);
      forall p | p in path ensures Reaches(a.trans, p, r) {
        ReachesStep(a.trans, p, q, r);
      }
      ok, S', C', V', t' := Dfs(a, r, S, C, V, t, path);
      if ok {
        RecursedHandled(a, S, C, V, t, path, q, r, S', C');
      }
    } else if S[r].0 {
      ghost var k := MergeTarget(a, S, C, V, t, path, q, r);
      ok, C' := MergeCandidates(a, q, r, S, C, k);
      if ok {
        MergeDone(a, S, C, V, t, path, q, k, C');
        MergeSearched(a, S, C, V, t, path, k, C');
        MergeHandled(a, S, C', V, t, path, q, r, k);
      }
    } else {
      ok := true;
      ProgressRefl(a, S, C);
      assert q in path && OnV(S, q);
    }
  }

  /** `dfs(q)`: discover `q` (push it as a candidate with its colour, push it on V, stamp
    * it), handle each successor, then leave `q` and tick the clock. `false` means an
    * accepting lasso was found; otherwise the invariant holds again for the caller and
    * every successor of `q` has been discovered. */
  method Dfs(a: Automaton, q: nat, S: map<nat, Visit>, C: seq<Entry>, V: seq<nat>, t: nat, ghost path: seq<nat>)
    returns (ok: bool, S': map<nat, Visit>, C': seq<Entry>, V': seq<nat>, t': nat)
    requires a.Valid() && q in a.States() && q !in S && S.Keys <= a.States()
    requires Inv(a, S, C, V, t, path)
    requires Reaches(a.trans, InitialState, q) && forall p :: p in path ==> Reaches(a.trans, p, q)
    requires SearchedInv(a, S, C, V, path)
    ensures S.Keys + {q} <= S'.Keys <= a.States() && t < t'
    ensures ok ==> Inv(a, S', C', V', t', path)
    ensures ok ==> SearchedInv(a, S', C', V', path) && Progress(a, S, C, S', C') && Time(S', q) == t + 1
    ensures ok ==> Succ(a.trans, q) <= S'.Keys
    ensures !ok ==> a.NonEmpty()
    decreases |a.States() - S.Keys|, 0
  {
    var colour: seq<nat> := [];
    if a.IsGeneralized() {
      colour := IndexesFinalSets(a, q);
    }
    DiscoverStacks(S, C, V, t, path, q, colour);
    DiscoverReach(a, S, C, V, t, path, q, colour);
    DiscoverColour(a, C, q, colour);
    DiscoverSearched(a, S, C, V, t, path, q, colour);
    t' := t + 1;
    S', C', V' := S[q := (true, t')], C + [(q, colour)], V + [q];
    ghost var path' := path + [q];
    ReachesRefl(a.trans, q);
    assert forall p :: p in path' ==> Reaches(a.trans, p, q);
    ghost var S1, C1 := S', C';
    MarkShrinks(a.States(), S.Keys, S'.Keys, q);
    var found;
    found, S', C', V', t' := SearchSuccessors(a, q, S', C', V', t', path');
    if !found {
      return false, S', C', V', t';
    }
    ghost var S2, C2 := S', C';
    S', C', V' := FinishState(a, q, S', C', V', t', path);
    ProgressTrans(a, S1, C1, S2, C2, S', C');
    ProgressTrans(a, S, C, S1, C1, S', C');
    ClockTick(a, S', C', V', t', path);
    t' := t' + 1;
    ok := true;
  }

  /** The loop of lines 40-74 over the successors of the innermost running state `q`: each
    * successor is handled in turn, and the loop stops at the first lasso found. */
  method SearchSuccessors(a: Automaton, q: nat, S: map<nat, Visit>, C: seq<Entry>, V: seq<nat>, t: nat,
                          ghost path: seq<nat>)
    returns (ok: bool, S': map<nat, Visit>, C': seq<Entry>, V': seq<nat>, t': nat)
    requires a.Valid() && S.Keys <= a.States() && q in S
    requires Inv(a, S, C, V, t, path) && path != [] && path[|path| - 1] == q
    requires Reaches(a.trans, InitialState, q) && forall p :: p in path ==> Reaches(a.trans, p, q)
    requires SearchedInv(a, S, C, V, path)
    ensures S.Keys <= S'.Keys <= a.States() && t <= t'
    ensures ok ==> Inv(a, S', C', V', t', path) && SearchedInv(a, S', C', V', path)
    ensures ok ==> Progress(a, S, C, S', C') && Handled(a, S', C', q, Succ(a.trans, q))
    ensures !ok ==> a.NonEmpty()
    decreases |a.States() - S.Keys|, 2
  {
    S', C', V', t' := S, C, V, t;
    ProgressRefl(a, S, C);
    var todo := Succ(a.trans, q);
    while todo != {}
      invariant todo <= Succ(a.trans, q)
      invariant S.Keys <= S'.Keys <= a.States() && t <= t'
      invariant Inv(a, S', C', V', t', path)
      invariant SearchedInv(a, S', C', V', path) && Progress(a, S, C, S', C')
      invariant Handled(a, S', C', q, Succ(a.trans, q) - todo)
      decreases todo
    {
      var r :| r in todo;
      ghost var Sb, Cb := S', C';
      MarkNoGrow(a.States(), S.Keys, S'.Keys);
      var found;
      found, S', C', V', t' := Step(a, q, r, S', C', V', t', path);
      if !found {
        return false, S', C', V', t';
      }
      ProgressTrans(a, S, C, Sb, Cb, S', C');
      assert q in path && OnV(S', q);
      HandledKept(a, Sb, Cb, S', C', q, Succ(a.trans, q) - todo);
      todo := todo - {r};
    }
    ok := true;
  }

  /** `is_empty`: the search from the initial state with every container empty and the
    * clock at 0. `false` (a lasso was found) means the language is non-empty. */
  method IsEmpty(a: Automaton) returns (empty: bool)
    requires a.Valid()
    ensures empty <==> !a.NonEmpty()
  {
    ReachesRefl(a.trans, InitialState);
    var S, C, V, t;
    empty, S, C, V, t := Dfs(a, InitialState, map[], [], [], 0, []);
    if empty {
      SearchComplete(a, S, C, V, t);
    }
  }
}

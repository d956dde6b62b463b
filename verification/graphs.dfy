/**
 * Directed graphs given as successor maps (the shape of a Büchi automaton's
 * transition table), with paths and reachability used to state what the
 * emptiness checks and the product construction promise.
 */
module Graphs {

  /** A transition table: each source state mapped to its set of successors. */
  type Graph<T> = map<T, set<T>>

  /** The successors of `x`; a state without an entry has none. */
  function Succ<T(!new)>(g: Graph<T>, x: T): set<T>
  {
    if x in g then g[x] else {}
  }

  /** `p` is a non-empty sequence of states, each consecutive pair an edge of `g`. */
  ghost predicate IsPath<T(!new)>(g: Graph<T>, p: seq<T>)
  {
    |p| > 0 && forall i :: 0 <= i < |p| - 1 ==> p[i] in g && p[i + 1] in g[p[i]]
  }

  /** `y` is reachable from `x` in zero or more steps. */
  ghost predicate Reaches<T(!new)>(g: Graph<T>, x: T, y: T)
  {
    exists p :: IsPath(g, p) && p[0] == x && p[|p| - 1] == y
  }

  /** `y` is reachable from `x` in one or more steps. */
  ghost predicate ReachesPlus<T(!new)>(g: Graph<T>, x: T, y: T)
  {
    exists z :: z in Succ(g, x) && Reaches(g, z, y)
  }

  lemma ReachesRefl<T(!new)>(g: Graph<T>, x: T)
    ensures Reaches(g, x, x)
  {
    assert IsPath(g, [x]);
  }

  lemma ReachesTrans<T(!new)>(g: Graph<T>, x: T, y: T, z: T)
    requires Reaches(g, x, y) && Reaches(g, y, z)
    ensures Reaches(g, x, z)
  {
    var p :| IsPath(g, p) && p[0] == x && p[|p| - 1] == y;
    var q :| IsPath(g, q) && q[0] == y && q[|q| - 1] == z;
    var r := p + q[1..];
    assert IsPath(g, r) by {
      forall i | 0 <= i < |r| - 1
        ensures r[i] in g && r[i + 1] in g[r[i]]
      {
        if i < |p| - 1 {
          assert r[i] == p[i] && r[i + 1] == p[i + 1];
        } else {
          assert r[i] == q[i - |p| + 1] && r[i + 1] == q[i - |p| + 2];
        }
      }
    }
    assert r[|r| - 1] == z by {
      if |q| == 1 { assert r == p; }
    }
  }

  lemma ReachesEdge<T(!new)>(g: Graph<T>, x: T, y: T)
    requires y in Succ(g, x)
    ensures Reaches(g, x, y) && ReachesPlus(g, x, y)
  {
    assert IsPath(g, [x, y]);
    ReachesRefl(g, y);
  }

  /** Extending a path by one edge. */
  lemma ReachesStep<T(!new)>(g: Graph<T>, x: T, y: T, z: T)
    requires Reaches(g, x, y) && z in Succ(g, y)
    ensures Reaches(g, x, z)
  {
    ReachesEdge(g, y, z);
    ReachesTrans(g, x, y, z);
  }

  lemma PlusImpliesReaches<T(!new)>(g: Graph<T>, x: T, y: T)
    requires ReachesPlus(g, x, y)
    ensures Reaches(g, x, y)
  {
    var z :| z in Succ(g, x) && Reaches(g, z, y);
    ReachesEdge(g, x, z);
    ReachesTrans(g, x, z, y);
  }

  lemma PlusTrans<T(!new)>(g: Graph<T>, x: T, y: T, z: T)
    requires ReachesPlus(g, x, y) && Reaches(g, y, z)
    ensures ReachesPlus(g, x, z)
  {
    var w :| w in Succ(g, x) && Reaches(g, w, y);
    ReachesTrans(g, w, y, z);
  }

  lemma ReachesThenPlus<T(!new)>(g: Graph<T>, x: T, y: T, z: T)
    requires Reaches(g, x, y) && ReachesPlus(g, y, z)
    ensures ReachesPlus(g, x, z)
  {
    var p :| IsPath(g, p) && p[0] == x && p[|p| - 1] == y;
    if |p| == 1 {
    } else {
      var w := p[1];
      assert w in Succ(g, x);
      assert IsPath(g, p[1..]) by {
        forall i | 0 <= i < |p[1..]| - 1
          ensures p[1..][i] in g && p[1..][i + 1] in g[p[1..][i]]
        {
          assert p[1..][i] == p[i + 1] && p[1..][i + 1] == p[i + 2];
        }
      }
      assert Reaches(g, w, y);
      PlusImpliesReaches(g, y, z);
      ReachesTrans(g, w, y, z);
    }
  }

  /** A cycle closed by the edge `q -> r`: `x` reaches `q`, and `r` reaches `x` back. */
  lemma CycleThroughEdge<T(!new)>(g: Graph<T>, x: T, q: T, r: T)
    requires Reaches(g, x, q) && r in Succ(g, q) && Reaches(g, r, x)
    ensures ReachesPlus(g, x, x)
  {
    ReachesEdge(g, q, r);
    PlusTrans(g, q, r, x);
    ReachesThenPlus(g, x, q, x);
  }

  /** Any two positions of a path, the earlier reaches the later. */
  lemma PathReaches<T(!new)>(g: Graph<T>, p: seq<T>, i: nat, j: nat)
    requires IsPath(g, p) && i <= j < |p|
    ensures Reaches(g, p[i], p[j])
  {
    var s := p[i..j + 1];
    assert IsPath(g, s) by {
      forall k | 0 <= k < |s| - 1
        ensures s[k] in g && s[k + 1] in g[s[k]]
      {
        assert s[k] == p[i + k] && s[k + 1] == p[i + k + 1];
      }
    }
    assert s[0] == p[i] && s[|s| - 1] == p[j];
  }

  /** A state reaching anything else has an outgoing edge. */
  lemma ReachesOther<T(!new)>(g: Graph<T>, x: T, y: T)
    requires Reaches(g, x, y) && x != y
    ensures x in g && ReachesPlus(g, x, y)
  {
    var p :| IsPath(g, p) && p[0] == x && p[|p| - 1] == y;
    assert |p| > 1;
    PathReaches(g, p, 1, |p| - 1);
    assert p[1] in Succ(g, x);
  }

  /** A set closed under successors holds everything reachable from its members. */
  lemma ClosedReach<T(!new)>(g: Graph<T>, s: set<T>, x: T, y: T)
    requires x in s && forall z :: z in s ==> Succ(g, z) <= s
    requires Reaches(g, x, y)
    ensures y in s
  {
    var p :| IsPath(g, p) && p[0] == x && p[|p| - 1] == y;
    var i := 0;
    while i < |p| - 1
      invariant 0 <= i <= |p| - 1 && p[i] in s
    {
      assert p[i + 1] in Succ(g, p[i]);
      i := i + 1;
    }
  }

  /** Marking one more state of a finite universe leaves fewer unmarked: the measure
    * of the searches that mark each state once. */
  lemma MarkShrinks<T>(U: set<T>, A: set<T>, B: set<T>, x: T)
    requires A <= B && x in U && x in B && x !in A
    ensures |U - B| < |U - A|
  {
    var D := (U - A) - (U - B);
    assert U - A == (U - B) + D;
    assert (U - B) * D == {};
    assert x in D;
  }

  /** A map that sends every edge out of a set `S` closed under `g` to an edge of `h`
    * sends every path of `g` from `S` to a path of `h`. */
  lemma MapReach<T(!new), U(!new)>(g: Graph<T>, h: Graph<U>, S: set<T>, f: map<T, U>, x: T, y: T)
    requires S <= f.Keys
    requires forall u, v :: u in S && v in Succ(g, u) ==> v in S && f[v] in Succ(h, f[u])
    requires x in S && Reaches(g, x, y)
    ensures y in S && Reaches(h, f[x], f[y])
  {
    var p: seq<T> :| IsPath(g, p) && p[0] == x && p[|p| - 1] == y;
    var i := 0;
    ReachesRefl(h, f[x]);
    while i < |p| - 1
      invariant 0 <= i <= |p| - 1 && p[i] in S && Reaches(h, f[x], f[p[i]])
    {
      assert p[i + 1] in Succ(g, p[i]);
      ReachesStep(h, f[x], f[p[i]], f[p[i + 1]]);
      i := i + 1;
    }
  }

  /** Dropping the first state of a path of two or more states leaves a path. */
  lemma PathTail<T(!new)>(g: Graph<T>, p: seq<T>)
    requires IsPath(g, p) && |p| > 1
    ensures IsPath(g, p[1..])
  {
    var t := p[1..];
    forall i | 0 <= i < |t| - 1 ensures t[i] in g && t[i + 1] in g[t[i]] {
      assert t[i] == p[i + 1] && t[i + 1] == p[i + 2];
    }
  }

  /** Marking more states never leaves more unmarked. */
  lemma MarkNoGrow<T>(U: set<T>, A: set<T>, B: set<T>)
    requires A <= B
    ensures |U - B| <= |U - A|
  {
    var D := (U - A) - (U - B);
    assert U - A == (U - B) + D;
    assert (U - B) * D == {};
  }

  /** A proper subset of a finite set is smaller. */
  lemma ProperSubsetSmaller<T>(A: set<T>, B: set<T>, x: T)
    requires A <= B && x in B && x !in A
    ensures |A| < |B|
  {
    var D := B - A;
    assert B == A + D;
    assert A * D == {};
    assert x in D;
  }

  /** The last edge of a non-empty path from `x` to `y`. */
  lemma PlusLastEdge<T(!new)>(g: Graph<T>, x: T, y: T) returns (w: T)
    requires ReachesPlus(g, x, y)
    ensures Reaches(g, x, w) && y in Succ(g, w)
  {
    var z :| z in Succ(g, x) && Reaches(g, z, y);
    var p :| IsPath(g, p) && p[0] == z && p[|p| - 1] == y;
    ReachesEdge(g, x, z);
    if |p| == 1 {
      w := x;
      ReachesRefl(g, x);
    } else {
      w := p[|p| - 2];
      PathReaches(g, p, 0, |p| - 2);
      ReachesTrans(g, x, z, w);
      assert y in g[w];
    }
  }

  /** A set closed under predecessors holds everything that reaches one of its members. */
  lemma ClosedBack<T(!new)>(g: Graph<T>, s: set<T>, x: T, y: T)
    requires y in s && forall z, w :: z in g && w in g[z] && w in s ==> z in s
    requires Reaches(g, x, y)
    ensures x in s
  {
    var p :| IsPath(g, p) && p[0] == x && p[|p| - 1] == y;
    var i := |p| - 1;
    while i > 0
      invariant 0 <= i < |p| && p[i] in s
    {
      assert p[i - 1] in g && p[i] in g[p[i - 1]];
      i := i - 1;
    }
  }

  /** The number of worklist entries that are already explored (in `s`). */
  function CountIn<T>(w: seq<T>, s: set<T>): nat
  {
    if w == [] then 0 else (if w[0] in s then 1 else 0) + CountIn(w[1..], s)
  }

  lemma {:induction false} CountInAppend<T>(x: seq<T>, y: seq<T>, s: set<T>)
    ensures CountIn(x + y, s) == CountIn(x, s) + CountIn(y, s)
    decreases |x|
  {
    if x != [] {
      assert (x + y)[1..] == x[1..] + y;
      CountInAppend(x[1..], y, s);
    } else {
      assert x + y == y;
    }
  }

  lemma {:induction false} CountInNone<T>(x: seq<T>, s: set<T>)
    requires forall p :: p in x ==> p !in s
    ensures CountIn(x, s) == 0
    decreases |x|
  {
    if x != [] {
      assert x[0] in x;
      CountInNone(x[1..], s);
    }
  }
}

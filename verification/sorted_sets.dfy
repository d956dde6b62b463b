/**
 * Sorted, duplicate-free vectors of states used as sets: the result of
 * `std::sort` followed by `std::unique`, and the standard merge algorithms
 * `std::set_union`, `std::set_difference` and `std::set_intersection`
 * applied to two such vectors.
 */
module SortedSets {

  /** Strictly ascending: sorted and without repeats. */
  predicate Increasing(s: seq<nat>)
  {
    forall i, j :: 0 <= i < j < |s| ==> s[i] < s[j]
  }

  /** The set a vector stands for; listing an id twice adds nothing. */
  function Elems(s: seq<nat>): (r: set<nat>)
    ensures forall y :: y in r <==> y in s
  {
    set y | y in s
  }

  /** Splitting off the head of a strictly ascending vector. */
  lemma HeadTail(s: seq<nat>)
    requires Increasing(s) && s != []
    ensures Increasing(s[1..])
    ensures forall y :: y in s <==> y == s[0] || y in s[1..]
    ensures forall y :: y in s[1..] ==> s[0] < y
  {
    assert s == [s[0]] + s[1..];
    forall y | y in s[1..] ensures s[0] < y {
      var k :| 0 <= k < |s[1..]| && s[1..][k] == y;
      assert s[k + 1] == y;
    }
  }

  /** Putting a smaller state in front of a strictly ascending vector. */
  lemma Cons(h: nat, rest: seq<nat>)
    requires Increasing(rest) && forall y :: y in rest ==> h < y
    ensures Increasing([h] + rest)
    ensures forall y :: y in [h] + rest <==> y == h || y in rest
  {
    var r := [h] + rest;
    forall i, j | 0 <= i < j < |r| ensures r[i] < r[j] {
      if i == 0 {
        assert r[j] == rest[j - 1] && rest[j - 1] in rest;
      } else {
        assert r[i] == rest[i - 1] && r[j] == rest[j - 1];
      }
    }
  }

  /** Two strictly ascending vectors holding the same states are the same vector,
    * so comparing vectors (`S != OldS`) compares the sets they stand for. */
  lemma {:induction false} IncreasingUnique(a: seq<nat>, b: seq<nat>)
    requires Increasing(a) && Increasing(b)
    requires forall y :: y in a <==> y in b
    ensures a == b
    decreases |a|
  {
    assert a != [] ==> a[0] in b;
    assert b != [] ==> b[0] in a;
    if a != [] && b != [] {
      HeadTail(a);
      HeadTail(b);
      assert a[0] == b[0] by {
        assert a[0] in b && b[0] in a;
      }
      IncreasingUnique(a[1..], b[1..]);
      assert a == [a[0]] + a[1..] && b == [b[0]] + b[1..];
    }
  }

  /** `std::set_union` of two strictly ascending vectors. */
  function SetUnion(a: seq<nat>, b: seq<nat>): (r: seq<nat>)
    requires Increasing(a) && Increasing(b)
    ensures Increasing(r)
    ensures forall y :: y in r <==> y in a || y in b
    decreases |a| + |b|
  {
    if a == [] then b
    else if b == [] then a
    else
      HeadTail(a);
      HeadTail(b);
      if a[0] < b[0] then
        var rest := SetUnion(a[1..], b);
        Cons(a[0], rest);
        [a[0]] + rest
      else if b[0] < a[0] then
        var rest := SetUnion(a, b[1..]);
        Cons(b[0], rest);
        [b[0]] + rest
      else
        var rest := SetUnion(a[1..], b[1..]);
        Cons(a[0], rest);
        [a[0]] + rest
  }

  /** `std::set_difference`: the entries of `a` that are not in `b`. */
  function SetDifference(a: seq<nat>, b: seq<nat>): (r: seq<nat>)
    requires Increasing(a) && Increasing(b)
    ensures Increasing(r)
    ensures forall y :: y in r <==> y in a && y !in b
    decreases |a| + |b|
  {
    if a == [] then []
    else if b == [] then a
    else
      HeadTail(a);
      HeadTail(b);
      if a[0] < b[0] then
        var rest := SetDifference(a[1..], b);
        Cons(a[0], rest);
        [a[0]] + rest
      else if b[0] < a[0] then SetDifference(a, b[1..])
      else SetDifference(a[1..], b[1..])
  }

  /** `std::set_intersection`: the entries of `a` that are also in `b`. */
  function SetIntersection(a: seq<nat>, b: seq<nat>): (r: seq<nat>)
    requires Increasing(a) && Increasing(b)
    ensures Increasing(r)
    ensures forall y :: y in r <==> y in a && y in b
    decreases |a| + |b|
  {
    if a == [] || b == [] then []
    else
      HeadTail(a);
      HeadTail(b);
      if a[0] < b[0] then SetIntersection(a[1..], b)
      else if b[0] < a[0] then SetIntersection(a, b[1..])
      else
        var rest := SetIntersection(a[1..], b[1..]);
        Cons(a[0], rest);
        [a[0]] + rest
  }

  /** Inserting one state into a strictly ascending vector, keeping it so. */
  function InsertSorted(s: seq<nat>, x: nat): (r: seq<nat>)
    requires Increasing(s)
    ensures Increasing(r)
    ensures forall y :: y in r <==> y in s || y == x
  {
    if s == [] then [x]
    else
      HeadTail(s);
      if x < s[0] then
        Cons(x, s);
        [x] + s
      else if x == s[0] then s
      else
        var rest := InsertSorted(s[1..], x);
        Cons(s[0], rest);
        [s[0]] + rest
  }

  /** `std::sort` followed by `erase(std::unique(...))`: the same states, ascending, once each. */
  method SortUnique(xs: seq<nat>) returns (r: seq<nat>)
    ensures Increasing(r)
    ensures forall y :: y in r <==> y in xs
  {
    r := [];
    for i := 0 to |xs|
      invariant Increasing(r)
      invariant forall y :: y in r <==> y in xs[..i]
    {
      assert xs[..i + 1] == xs[..i] + [xs[i]];
      r := InsertSorted(r, xs[i]);
    }
    assert xs[..|xs|] == xs;
  }

  /** A vector built from an unordered set and then sorted (`std::vector(set)` + `std::sort`). */
  method SortedFromSet(s: set<nat>) returns (r: seq<nat>)
    ensures Increasing(r) && Elems(r) == s
  {
    var rest := s;
    var xs: seq<nat> := [];
    while rest != {}
      invariant rest <= s
      invariant forall y :: y in xs <==> y in s && y !in rest
      decreases rest
    {
      var x :| x in rest;
      xs := xs + [x];
      rest := rest - {x};
    }
    r := SortUnique(xs);
  }
}

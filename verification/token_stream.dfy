/**
 * The whitespace-separated integers the DFA readers extract from an input stream,
 * taken as a finite sequence of values. Running out of values is a failed read.
 */
module TokenStream {
  import opened Wrappers

  /** The `n` values starting at position `at`, if there are that many. */
  function Slice(ts: seq<nat>, at: nat, n: nat): (r: Option<seq<nat>>)
    requires at <= |ts|
    ensures r.Some? <==> at + n <= |ts|
    ensures r.Some? ==> |r.value| == n && forall i :: 0 <= i < n ==> r.value[i] == ts[at + i]
  {
    if at + n <= |ts| then Some(ts[at..at + n]) else None
  }

  /** A counted read loop: extract one value and push it, `n` times. */
  method ReadValues(ts: seq<nat>, at: nat, n: nat) returns (r: Option<seq<nat>>)
    requires at <= |ts|
    ensures r == Slice(ts, at, n)
  {
    var values: seq<nat> := [];
    var left: nat := n;
    while left != 0
      invariant left <= n && |values| == n - left
      invariant at + |values| <= |ts| && values == ts[at..at + |values|]
      decreases left
    {
      var pos := at + |values|;
      if pos >= |ts| {
        return None;
      }
      values := values + [ts[pos]];
      left := left - 1;
    }
    return Some(values);
  }
}

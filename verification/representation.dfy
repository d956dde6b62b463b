/**
 * The text encoding of a Büchi automaton, over a sequence of integer tokens:
 * K, then K groups "count id id ...", then "from to" pairs until the input ends.
 * The specification functions parse a suffix of the token sequence and return
 * what remains; the reader methods walk the tokens with a position, as the
 * stream extraction does.
 */
module Representation {
  import opened Wrappers
  import opened Graphs
  import opened Buchi
  import SortedSets

  /** Parsing `n` groups of "count id ...": a group whose count is 0 is dropped.
    * `None` when the tokens run out. */
  function ParseGroups(rest: seq<nat>, n: nat): Option<(seq<set<nat>>, seq<nat>)>
    decreases n
  {
    if n == 0 then Some(([], rest))
    else if |rest| == 0 || rest[0] > |rest| - 1 then None
    else
      var c := rest[0];
      var g := SortedSets.Elems(rest[1..c + 1]);
      match ParseGroups(rest[c + 1..], n - 1)
      case None => None
      case Some((gs, tail)) => Some(((if g == {} then [] else [g]) + gs, tail))
  }

  /** The finals block: K followed by K groups. */
  function ParseFinalStates(ts: seq<nat>): Option<(seq<set<nat>>, seq<nat>)>
  {
    if |ts| == 0 then None else ParseGroups(ts[1..], ts[0])
  }

  /** One edge added to a transition table. */
  function AddEdge(g: Graph<nat>, q: nat, t: nat): Graph<nat>
  {
    g[q := Succ(g, q) + {t}]
  }

  /** Reading "from to" pairs until the tokens end; a dangling single token is a
    * failed read. */
  function AddPairs(g: Graph<nat>, rest: seq<nat>): Option<Graph<nat>>
    decreases |rest|
  {
    if |rest| == 0 then Some(g)
    else if |rest| == 1 then None
    else AddPairs(AddEdge(g, rest[0], rest[1]), rest[2..])
  }

  /** The whole input: the finals block, the edge list, then the checked constructor. */
  function ReadAutomaton(ts: seq<nat>): (r: Option<Automaton>)
    ensures r.Some? ==> r.value.Valid() && |r.value.finals| > 0 && |r.value.trans| > 0
  {
    match ParseFinalStates(ts)
    case None => None
    case Some((finals, rest)) =>
      match AddPairs(map[], rest)
      case None => None
      case Some(table) => Construct(finals, table)
  }

  /** The groups already read in front of the result of reading the others. */
  function Prepend(acc: seq<set<nat>>, o: Option<(seq<set<nat>>, seq<nat>)>): Option<(seq<set<nat>>, seq<nat>)>
  {
    match o
    case None => None
    case Some((gs, tail)) => Some((acc + gs, tail))
  }

  /** Unfolding one group: its set (if non-empty) in front of the remaining groups. */
  lemma ParseGroupsStep(rest: seq<nat>, n: nat, acc: seq<set<nat>>)
    requires n > 0 && |rest| > 0 && rest[0] <= |rest| - 1
    ensures var g := SortedSets.Elems(rest[1..rest[0] + 1]);
      Prepend(acc, ParseGroups(rest, n))
      == Prepend(acc + (if g == {} then [] else [g]), ParseGroups(rest[rest[0] + 1..], n - 1))
  {
    var g := SortedSets.Elems(rest[1..rest[0] + 1]);
    var o := ParseGroups(rest[rest[0] + 1..], n - 1);
    if o.Some? {
      assert acc + ((if g == {} then [] else [g]) + o.value.0)
          == (acc + (if g == {} then [] else [g])) + o.value.0;
    }
  }

  /** The inner loop of `read_final_states`: the count, then that many ids
    * inserted into one set. `None` when the tokens run out. */
  method ReadGroup(ts: seq<nat>, at: nat) returns (r: Option<(set<nat>, nat)>)
    requires at < |ts|
    ensures r.None? <==> ts[at] > |ts| - at - 1
    ensures r.Some? ==> r.value.1 == at + 1 + ts[at] && r.value.0 == SortedSets.Elems(ts[at + 1..r.value.1])
  {
    var fsSet := ts[at];
    var pos := at + 1;
    var inSet: set<nat> := {};
    while fsSet > 0
      invariant at + 1 <= pos <= |ts|
      invariant pos - (at + 1) + fsSet == ts[at]
      invariant forall y :: y in inSet <==> y in ts[at + 1..pos]
      decreases fsSet
    {
      if pos == |ts| {
        return None;
      }
      inSet := inSet + {ts[pos]};
      assert ts[at + 1..pos + 1] == ts[at + 1..pos] + [ts[pos]];
      pos := pos + 1;
      fsSet := fsSet - 1;
    }
    return Some((inSet, pos));
  }

  /** A group read at `pos` is the next group `ParseGroups` takes. */
  lemma ReadGroupStep(ts: seq<nat>, pos: nat, n: nat, acc: seq<set<nat>>, next: nat)
    requires n > 0 && pos < |ts| && ts[pos] <= |ts| - pos - 1 && next == pos + 1 + ts[pos]
    ensures var g := SortedSets.Elems(ts[pos + 1..next]);
      Prepend(acc, ParseGroups(ts[pos..], n))
      == Prepend(acc + (if g == {} then [] else [g]), ParseGroups(ts[next..], n - 1))
  {
    var rest := ts[pos..];
    assert rest[1..rest[0] + 1] == ts[pos + 1..next];
    assert rest[rest[0] + 1..] == ts[next..];
    ParseGroupsStep(rest, n, acc);
  }

  /** One round of `read_final_states`: read the group at `pos` and keep it when it is
    * non-empty. */
  method ReadNextGroup(ts: seq<nat>, pos: nat, n: nat, finals: seq<set<nat>>)
    returns (r: Option<(seq<set<nat>>, nat)>)
    requires 1 <= pos <= |ts| && n > 0
    ensures r.None? ==> Prepend(finals, ParseGroups(ts[pos..], n)).None?
    ensures r.Some? ==> pos < r.value.1 <= |ts|
    ensures r.Some? ==> Prepend(r.value.0, ParseGroups(ts[r.value.1..], n - 1)) == Prepend(finals, ParseGroups(ts[pos..], n))
  {
    if pos == |ts| {
      assert ParseGroups(ts[pos..], n).None?;
      return None;
    }
    var group := ReadGroup(ts, pos);
    if group.None? {
      assert ParseGroups(ts[pos..], n).None?;
      return None;
    }
    ReadGroupStep(ts, pos, n, finals, group.value.1);
    if group.value.0 != {} {
      r := Some((finals + [group.value.0], group.value.1));
    } else {
      assert finals + [] == finals;
      r := Some((finals, group.value.1));
    }
  }

  /** `read_final_states`: counts down the groups, keeping each non-empty one. */
  method ReadFinalStates(ts: seq<nat>) returns (r: Option<(seq<set<nat>>, nat)>)
    ensures r.None? ==> ParseFinalStates(ts).None?
    ensures r.Some? ==> r.value.1 <= |ts| && ParseFinalStates(ts) == Some((r.value.0, ts[r.value.1..]))
  {
    if |ts| == 0 {
      return None;
    }
    var fsNum := ts[0];
    var pos := 1;
    var finals: seq<set<nat>> := [];
    ghost var all := ParseGroups(ts[1..], ts[0]);
    assert all.Some? ==> [] + all.value.0 == all.value.0;
    while fsNum > 0
      invariant 1 <= pos <= |ts|
      invariant Prepend(finals, ParseGroups(ts[pos..], fsNum)) == ParseFinalStates(ts)
      decreases fsNum
    {
      var next := ReadNextGroup(ts, pos, fsNum, finals);
      if next.None? {
        return None;
      }
      finals, pos := next.value.0, next.value.1;
      fsNum := fsNum - 1;
    }
    assert finals + [] == finals;
    return Some((finals, pos));
  }

  /** `read_transition_table`: every pair inserts `to` into the entry of `from`. */
  method ReadTransitionTable(ts: seq<nat>, start: nat) returns (r: Option<Graph<nat>>)
    requires start <= |ts|
    ensures r == AddPairs(map[], ts[start..])
  {
    var table: Graph<nat> := map[];
    var pos := start;
    while pos < |ts|
      invariant start <= pos <= |ts|
      invariant AddPairs(table, ts[pos..]) == AddPairs(map[], ts[start..])
      decreases |ts| - pos
    {
      if pos + 1 == |ts| {
        return None;
      }
      assert ts[pos..][2..] == ts[pos + 2..];
      table := table[ts[pos] := (if ts[pos] in table then table[ts[pos]] else {}) + {ts[pos + 1]}];
      pos := pos + 2;
    }
    return Some(table);
  }

  /** `construct_read`: both readers, then the checked constructor. */
  method ConstructRead(ts: seq<nat>) returns (r: Option<Automaton>)
    ensures r == ReadAutomaton(ts)
  {
    var fs := ReadFinalStates(ts);
    if fs.None? {
      return None;
    }
    var table := ReadTransitionTable(ts, fs.value.1);
    if table.None? {
      return None;
    }
    r := Construct(fs.value.0, table.value);
  }

  // ---------------------------------------------------------------- writer

  /** Each group written as its size followed by its members. */
  function FormatGroups(groups: seq<seq<nat>>): seq<nat>
  {
    if groups == [] then [] else [|groups[0]|] + groups[0] + FormatGroups(groups[1..])
  }

  /** Each edge written as "from to". */
  function FormatEdges(edges: seq<(nat, nat)>): seq<nat>
  {
    if edges == [] then [] else [edges[0].0, edges[0].1] + FormatEdges(edges[1..])
  }

  /** The output of `operator<<`: K, the groups, the edges. */
  function Format(groups: seq<seq<nat>>, edges: seq<(nat, nat)>): seq<nat>
  {
    [|groups|] + FormatGroups(groups) + FormatEdges(edges)
  }

  /** `s` lists the members of `m`, each once. */
  ghost predicate Lists(s: seq<nat>, m: set<nat>)
  {
    (forall i, j :: 0 <= i < j < |s| ==> s[i] != s[j]) && forall y :: y in s <==> y in m
  }

  /** `e` lists the edges of `g`, each once. */
  ghost predicate ListsEdges(e: seq<(nat, nat)>, g: Graph<nat>)
  {
    (forall i, j :: 0 <= i < j < |e| ==> e[i] != e[j])
    && forall q, t :: (q, t) in e <==> q in g && t in g[q]
  }

  /** `operator<<`: the number of sets, each set's size and members in some
    * iteration order, then one pair per edge in some iteration order. */
  method Write(a: Automaton) returns (ts: seq<nat>, ghost groups: seq<seq<nat>>, ghost edges: seq<(nat, nat)>)
    ensures ts == Format(groups, edges)
    ensures |groups| == |a.finals|
    ensures forall i :: 0 <= i < |groups| ==> Lists(groups[i], a.finals[i])
    ensures ListsEdges(edges, a.trans)
  {
    var body: seq<nat> := [];
    groups := [];
    for i := 0 to |a.finals|
      invariant |groups| == i
      invariant forall k :: 0 <= k < i ==> Lists(groups[k], a.finals[k])
      invariant body == FormatGroups(groups)
    {
      var members: seq<nat> := [];
      var left := a.finals[i];
      while left != {}
        invariant left <= a.finals[i]
        invariant |members| + |left| == |a.finals[i]|
        invariant forall y :: y in members <==> y in a.finals[i] && y !in left
        invariant forall j, k :: 0 <= j < k < |members| ==> members[j] != members[k]
        decreases left
      {
        var x :| x in left;
        members := members + [x];
        left := left - {x};
      }
      FormatGroupsSnoc(groups, members);
      body := body + [|a.finals[i]|] + members;
      groups := groups + [members];
    }
    var tail: seq<nat> := [];
    edges := [];
    var sources := a.trans.Keys;
    while sources != {}
      invariant sources <= a.trans.Keys
      invariant forall i, j :: 0 <= i < j < |edges| ==> edges[i] != edges[j]
      invariant forall q, t :: (q, t) in edges <==> q in a.trans && q !in sources && t in a.trans[q]
      invariant tail == FormatEdges(edges)
      decreases sources
    {
      var q :| q in sources;
      var succ := a.trans[q];
      while succ != {}
        invariant succ <= a.trans[q]
        invariant forall i, j :: 0 <= i < j < |edges| ==> edges[i] != edges[j]
        invariant forall p, t :: (p, t) in edges <==>
          (p in a.trans && p !in sources && t in a.trans[p]) || (p == q && t in a.trans[q] && t !in succ)
        invariant tail == FormatEdges(edges)
        decreases succ
      {
        var t :| t in succ;
        FormatEdgesSnoc(edges, (q, t));
        tail := tail + [q, t];
        edges := edges + [(q, t)];
        succ := succ - {t};
      }
      sources := sources - {q};
    }
    ts := [|a.finals|] + body + tail;
  }

  lemma {:induction false} FormatGroupsSnoc(groups: seq<seq<nat>>, g: seq<nat>)
    ensures FormatGroups(groups + [g]) == FormatGroups(groups) + [|g|] + g
    decreases |groups|
  {
    if groups == [] {
      assert [g][1..] == [];
    } else {
      assert (groups + [g])[1..] == groups[1..] + [g];
      FormatGroupsSnoc(groups[1..], g);
    }
  }

  lemma {:induction false} FormatEdgesSnoc(edges: seq<(nat, nat)>, e: (nat, nat))
    ensures FormatEdges(edges + [e]) == FormatEdges(edges) + [e.0, e.1]
    decreases |edges|
  {
    if edges == [] {
      assert [e][1..] == [];
    } else {
      assert (edges + [e])[1..] == edges[1..] + [e];
      FormatEdgesSnoc(edges[1..], e);
    }
  }

  // ---------------------------------------------------------------- properties

  /** One group "c id_1 .. id_c": a count of 0 drops the group, and repeated ids
    * collapse to one member of the set. */
  lemma OneGroup(ids: seq<nat>, rest: seq<nat>)
    ensures ParseGroups([|ids|] + ids + rest, 1)
         == Some(((if ids == [] then [] else [SortedSets.Elems(ids)]), rest))
  {
    var s := [|ids|] + ids + rest;
    assert s[1..|ids| + 1] == ids;
    assert s[|ids| + 1..] == rest;
    if ids != [] {
      assert ids[0] in SortedSets.Elems(ids);
      assert [SortedSets.Elems(ids)] + [] == [SortedSets.Elems(ids)];
    } else {
      assert SortedSets.Elems(ids) == {};
      var none: seq<set<nat>> := [];
      assert none + [] == none;
    }
  }

  /** A successful read of `n` groups yields at most `n` sets, none of them empty. */
  lemma {:induction false} ParseGroupsShape(rest: seq<nat>, n: nat)
    requires ParseGroups(rest, n).Some?
    ensures |ParseGroups(rest, n).value.0| <= n
    ensures forall i :: 0 <= i < |ParseGroups(rest, n).value.0| ==> ParseGroups(rest, n).value.0[i] != {}
    decreases n
  {
    if n > 0 {
      ParseGroupsShape(rest[rest[0] + 1..], n - 1);
    }
  }

  /** The sets a list of member listings stands for. */
  function Sets(groups: seq<seq<nat>>): (r: seq<set<nat>>)
    ensures |r| == |groups| && forall i :: 0 <= i < |groups| ==> r[i] == SortedSets.Elems(groups[i])
  {
    if groups == [] then [] else [SortedSets.Elems(groups[0])] + Sets(groups[1..])
  }

  /** Reading the groups that `FormatGroups` wrote gives back their sets, in order. */
  lemma {:induction false} ParseFormatGroups(groups: seq<seq<nat>>, rest: seq<nat>)
    requires forall i :: 0 <= i < |groups| ==> groups[i] != []
    ensures ParseGroups(FormatGroups(groups) + rest, |groups|) == Some((Sets(groups), rest))
    decreases |groups|
  {
    if groups == [] {
      assert FormatGroups(groups) + rest == rest;
    } else {
      var g := groups[0];
      var s := FormatGroups(groups) + rest;
      var tail := FormatGroups(groups[1..]) + rest;
      assert s == [|g|] + g + tail;
      assert s[0] == |g| && s[1..|g| + 1] == g;
      assert s[|g| + 1..] == tail;
      assert g[0] in SortedSets.Elems(g);
      assert forall i :: 0 <= i < |groups[1..]| ==> groups[1..][i] == groups[i + 1];
      ParseFormatGroups(groups[1..], rest);
      assert ParseGroups(tail, |groups| - 1) == Some((Sets(groups[1..]), rest));
      assert Sets(groups) == [SortedSets.Elems(g)] + Sets(groups[1..]);
    }
  }

  /** Reading the pairs that `FormatEdges` wrote adds exactly those edges. */
  lemma {:induction false} AddPairsFormat(g: Graph<nat>, edges: seq<(nat, nat)>)
    ensures AddPairs(g, FormatEdges(edges)).Some?
    ensures forall q, t ::
      (q in AddPairs(g, FormatEdges(edges)).value && t in AddPairs(g, FormatEdges(edges)).value[q])
      <==> (q in g && t in g[q]) || (q, t) in edges
    ensures forall q :: q in AddPairs(g, FormatEdges(edges)).value <==> q in g || exists t :: (q, t) in edges
    decreases |edges|
  {
    if edges != [] {
      var e := edges[0];
      var s := FormatEdges(edges);
      assert s[0] == e.0 && s[1] == e.1;
      assert s[2..] == FormatEdges(edges[1..]);
      var g' := AddEdge(g, e.0, e.1);
      AddPairsFormat(g', edges[1..]);
      assert forall p :: p in edges <==> p == e || p in edges[1..];
    }
  }

  /** The pairs an even-length token sequence stands for. */
  function PairsOf(rest: seq<nat>): (r: seq<(nat, nat)>)
    requires |rest| % 2 == 0
    ensures FormatEdges(r) == rest
    decreases |rest|
  {
    if |rest| == 0 then [] else
      var r := [(rest[0], rest[1])] + PairsOf(rest[2..]);
      assert r[1..] == PairsOf(rest[2..]);
      r
  }

  /** `read_transition_table`: the read succeeds iff the tokens form whole pairs, and then
    * the table holds exactly the listed edges, a repeated pair adding nothing. */
  lemma ReadEdges(rest: seq<nat>)
    ensures AddPairs(map[], rest).Some? <==> |rest| % 2 == 0
    ensures |rest| % 2 == 0 ==>
      forall q, t ::
        (q in AddPairs(map[], rest).value && t in AddPairs(map[], rest).value[q]) <==> (q, t) in PairsOf(rest)
  {
    OddFails(map[], rest);
    if |rest| % 2 == 0 {
      AddPairsFormat(map[], PairsOf(rest));
    }
  }

  lemma {:induction false} OddFails(g: Graph<nat>, rest: seq<nat>)
    ensures AddPairs(g, rest).Some? <==> |rest| % 2 == 0
    decreases |rest|
  {
    if |rest| >= 2 {
      OddFails(AddEdge(g, rest[0], rest[1]), rest[2..]);
    }
  }

  /** Listings of the acceptance sets stand for exactly those sets. */
  lemma SetsOfListings(a: Automaton, groups: seq<seq<nat>>)
    requires a.Valid()
    requires |groups| == |a.finals|
    requires forall i :: 0 <= i < |groups| ==> Lists(groups[i], a.finals[i])
    ensures Sets(groups) == a.finals
    ensures forall i :: 0 <= i < |groups| ==> groups[i] != []
  {
    forall i | 0 <= i < |groups| ensures groups[i] != [] && Sets(groups)[i] == a.finals[i] {
      var y :| y in a.finals[i];
      assert forall y :: y in Sets(groups)[i] <==> y in a.finals[i];
    }
  }

  /** The finals block of the writer's output reads back as the acceptance sets. */
  lemma FinalsRoundTrip(a: Automaton, groups: seq<seq<nat>>, edges: seq<(nat, nat)>)
    requires a.Valid()
    requires |groups| == |a.finals|
    requires forall i :: 0 <= i < |groups| ==> Lists(groups[i], a.finals[i])
    ensures ParseFinalStates(Format(groups, edges)) == Some((a.finals, FormatEdges(edges)))
  {
    var body := FormatGroups(groups) + FormatEdges(edges);
    var ts := Format(groups, edges);
    assert ts == [|groups|] + body;
    assert ts[1..] == body;
    SetsOfListings(a, groups);
    ParseFormatGroups(groups, FormatEdges(edges));
  }

  /** The edge list of the writer's output reads back as the transition table. */
  lemma TableRoundTrip(a: Automaton, edges: seq<(nat, nat)>)
    requires a.Valid() && ListsEdges(edges, a.trans)
    ensures AddPairs(map[], FormatEdges(edges)) == Some(a.trans)
  {
    AddPairsFormat(map[], edges);
    var table := AddPairs(map[], FormatEdges(edges)).value;
    forall q | q in a.trans ensures q in table {
      var t :| t in a.trans[q];
      assert (q, t) in edges;
    }
    forall q | q in table ensures table[q] == a.trans[q] {
      assert forall t :: t in table[q] <==> t in a.trans[q];
    }
    assert table == a.trans;
  }

  /** Round trip: reading what `operator<<` writes for a constructed automaton
    * gives back the same list of sets in the same order and the same table. */
  lemma RoundTrip(a: Automaton, groups: seq<seq<nat>>, edges: seq<(nat, nat)>)
    requires a.Valid()
    requires |groups| == |a.finals|
    requires forall i :: 0 <= i < |groups| ==> Lists(groups[i], a.finals[i])
    requires ListsEdges(edges, a.trans)
    ensures ReadAutomaton(Format(groups, edges)) == Some(a)
  {
    FinalsRoundTrip(a, groups, edges);
    TableRoundTrip(a, edges);
  }

  /** Any automaton the writer is given comes back from the reader unchanged. */
  method WriteThenRead(a: Automaton) returns (r: Option<Automaton>)
    requires a.Valid()
    ensures r == Some(a)
  {
    var ts, groups, edges := Write(a);
    RoundTrip(a, groups, edges);
    r := ConstructRead(ts);
  }
}

/**
 The worklist of crates/stickleback/src/causal.rs that spreads missing roots to dependents,
 on its own: node `p` passes everything it holds to each node in `dependents[p]`. The result
 is the least sets above the given ones that every node shares with its dependents.
 */
module Worklist {
  type Item = nat

  ghost predicate Between(low: seq<set<Item>>, held: seq<set<Item>>, high: seq<set<Item>>) {
    |low| == |held| == |high| && forall i :: 0 <= i < |held| ==> low[i] <= held[i] <= high[i]
  }

  ghost predicate Targets(dependents: seq<seq<nat>>) {
    forall p, k :: 0 <= p < |dependents| && 0 <= k < |dependents[p]| ==> dependents[p][k] < |dependents|
  }

  /** Outside `exempt`, a node's items have reached all its dependents. */
  ghost predicate Spread(dependents: seq<seq<nat>>, held: seq<set<Item>>, exempt: set<nat>)
    requires Targets(dependents) && |held| == |dependents|
  {
    forall p, k :: 0 <= p < |dependents| && 0 <= k < |dependents[p]| && p !in exempt ==>
      held[p] <= held[dependents[p][k]]
  }

  // ---------- The measure ----------

  ghost function Total(held: seq<set<Item>>): nat {
    if held == [] then 0 else |held[0]| + Total(held[1..])
  }

  lemma {:induction false} TotalUpdate(held: seq<set<Item>>, i: nat, s: set<Item>)
    requires i < |held|
    ensures Total(held[i := s]) == Total(held) - |held[i]| + |s|
  {
    if i > 0 {
      assert held[i := s][1..] == held[1..][i - 1 := s];
      TotalUpdate(held[1..], i - 1, s);
    } else {
      assert held[0 := s][1..] == held[1..];
    }
  }

  lemma {:induction false} TotalBound(held: seq<set<Item>>, universe: set<Item>)
    requires forall i :: 0 <= i < |held| ==> held[i] <= universe
    ensures Total(held) <= |held| * |universe|
  {
    if held != [] {
      GrowthShows(held[0], universe);
      TotalBound(held[1..], universe);
      assert |held| * |universe| == |universe| + (|held| - 1) * |universe|;
    }
  }

  lemma GrowthShows(a: set<Item>, b: set<Item>)
    requires a <= b
    ensures |a| <= |b| && (|a| == |b| <==> a == b)
  {
    if a != b {
      assert b == a + (b - a);
      assert |b - a| > 0;
    }
  }

  // ---------- The loops ----------

  /** Handing one node's items to one dependent disturbs only that dependent's own duties. */
  lemma HandOver(dependents: seq<seq<nat>>, held: seq<set<Item>>, exempt: set<nat>, x: nat, more: set<Item>)
    requires Targets(dependents) && |held| == |dependents| && x < |held|
    requires Spread(dependents, held, exempt)
    ensures Spread(dependents, held[x := held[x] + more], exempt + {x})
    ensures held[x] + more == held[x] ==> Spread(dependents, held[x := held[x] + more], exempt)
  {
  }

  method HandOverAll(dependents: seq<seq<nat>>, node: nat, start: seq<set<Item>>, queue: seq<nat>,
                     ghost low: seq<set<Item>>, ghost high: seq<set<Item>>)
    returns (held: seq<set<Item>>, blocked: seq<nat>)
    requires Targets(dependents) && |start| == |dependents| && node < |dependents|
    requires Between(low, start, high) && Spread(dependents, high, {})
    requires Spread(dependents, start, {node} + Queued(queue))
    requires forall p :: p in queue ==> p < |dependents|
    ensures |held| == |dependents| && Between(low, held, high)
    ensures Spread(dependents, held, Queued(blocked))
    ensures forall p :: p in blocked ==> p < |dependents|
    ensures Total(held) > Total(start) || (Total(held) == Total(start) && blocked == queue)
  {
    var items := start[node];
    held, blocked := start, queue;
    for k := 0 to |dependents[node]|
      invariant |held| == |dependents| && Between(low, held, high) && held[node] == items
      invariant Spread(dependents, held, {node} + Queued(blocked))
      invariant forall p :: p in blocked ==> p < |dependents|
      invariant forall j :: 0 <= j < k ==> items <= held[dependents[node][j]]
      invariant Total(held) > Total(start) || (Total(held) == Total(start) && blocked == queue)
    {
      var x := dependents[node][k];
      var grown := held[x] + items;
      assert items <= high[node] <= high[x];
      HandOver(dependents, held, {node} + Queued(blocked), x, items);
      TotalUpdate(held, x, grown);
      GrowthShows(held[x], grown);
      if |grown| != |held[x]| {
        assert {node} + Queued(blocked) + {x} == {node} + Queued(blocked + [x]);
        blocked := blocked + [x];
      }
      held := held[x := grown];
    }
  }

  ghost function Queued(queue: seq<nat>): set<nat> {
    set p | p in queue
  }

  method SpreadItems(dependents: seq<seq<nat>>, low: seq<set<Item>>, ghost high: seq<set<Item>>,
                     ghost universe: set<Item>)
    returns (held: seq<set<Item>>)
    requires Targets(dependents) && |low| == |dependents|
    requires Between(low, low, high) && Spread(dependents, high, {})
    requires forall i :: 0 <= i < |high| ==> high[i] <= universe
    ensures |held| == |dependents| && Between(low, held, high)
    ensures Spread(dependents, held, {})
  {
    held := low;
    var blocked: seq<nat> := [];
    for i := 0 to |held|
      invariant forall p :: p in blocked ==> p < |held|
      invariant forall p :: 0 <= p < i && held[p] != {} ==> p in blocked
    {
      if held[i] != {} { blocked := blocked + [i]; }
    }
    assert Spread(dependents, held, Queued(blocked));
    while blocked != []
      invariant |held| == |dependents| && Between(low, held, high)
      invariant Spread(dependents, held, Queued(blocked))
      invariant forall p :: p in blocked ==> p < |dependents|
      decreases |dependents| * |universe| - Total(held), |blocked|
    {
      TotalBound(held, universe);
      var node := blocked[0];
      assert node in blocked && forall p :: p in blocked[1..] ==> p in blocked;
      assert Queued(blocked) == {node} + Queued(blocked[1..]);
      held, blocked := HandOverAll(dependents, node, held, blocked[1..], low, high);
      TotalBound(held, universe);
    }
    assert Queued(blocked) == {};
  }
}

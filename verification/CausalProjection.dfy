/**
 The projection of crates/stickleback/src/causal.rs as the source runs it: validation, the
 hash index, the worklist that spreads missing roots, and the ready-queue sort. Each phase
 is proved against the graph and order definitions; a Vec the source edits in place is a
 sequence the method reassigns. Facts about parallel vectors are stated per slot (`SlotAt`,
 `ListedAt`, ...), so that a proof names the slots it uses.
 */
module CausalProjection {
  import opened Wrappers
  import opened CausalGraph
  import opened CausalOrder
  import ReadyQueue
  import Worklist

  datatype CausalError =
    | DuplicateOperation
    | ForkedSequence(seqNum: nat)
    | Cycle

  /** One blocked operation; the ascending list of its missing roots is determined by the set. */
  datatype Pending = Pending(operation: Hash, missing: set<Hash>)

  datatype Projection = Projection(order: seq<nat>, pending: seq<Pending>)

  // ---------- What a projection must be ----------

  /** Two entries claim one author/log position under different ids. */
  ghost predicate ForkAt(entries: seq<Entry>, i: int, j: int)
    requires 0 <= i < |entries| && 0 <= j < |entries|
  {
    SlotOf(entries[i]) == SlotOf(entries[j]) && entries[i].operation != entries[j].operation
  }

  function SlotOf(e: Entry): (Hash, nat, nat) {
    (e.author, e.logId, e.seqNum)
  }

  ghost predicate Forked(entries: seq<Entry>) {
    exists i, j :: 0 <= i < j < |entries| && ForkAt(entries, i, j)
  }

  /** The first entry at which a fork shows. */
  ghost predicate FirstFork(entries: seq<Entry>, j: int) {
    0 <= j < |entries| && !Forked(entries[..j]) && Forked(entries[..j + 1])
  }

  ghost function Operations(entries: seq<Entry>, order: seq<nat>): seq<Hash>
    requires forall k :: 0 <= k < |order| ==> order[k] < |entries|
  {
    seq(|order|, k requires 0 <= k < |order| => entries[order[k]].operation)
  }

  ghost function PendingOf(g: Graph, hs: seq<Hash>): seq<Pending> {
    seq(|hs|, k requires 0 <= k < |hs| => Pending(hs[k], MissingRoots(g, hs[k])))
  }

  /** The blocked operations in key order, each with every absent id it reaches. */
  ghost function PendingReport(g: Graph): seq<Pending> {
    PendingOf(g, KeySorted(g, g.Keys - Complete(g)))
  }

  ghost predicate Ordered(entries: seq<Entry>, p: Projection) {
    && (forall k :: 0 <= k < |p.order| ==> p.order[k] < |entries|)
    && CanonicalOrder(Indexed(entries), Complete(Indexed(entries)), Operations(entries, p.order))
    && p.pending == PendingReport(Indexed(entries))
  }

  /** The answer for a slice of entries, error cases in the order the source checks them. */
  ghost predicate ProjectsTo(entries: seq<Entry>, r: Result<Projection, CausalError>) {
    if r.Ok? then
      && !Forked(entries) && DuplicateFree(entries)
      && Acyclic(Indexed(entries), Complete(Indexed(entries))) && Ordered(entries, r.value)
    else if Forked(entries) then
      exists j :: FirstFork(entries, j) && r == Err(ForkedSequence(entries[j].seqNum))
    else if !DuplicateFree(entries) then r == Err(DuplicateOperation)
    else !Acyclic(Indexed(entries), Complete(Indexed(entries))) && r == Err(Cycle)
  }

  // ---------- Validation and index ----------

  lemma ForkInPrefix(entries: seq<Entry>, i: int, j: int)
    requires 0 <= i < j < |entries| && ForkAt(entries, i, j)
    ensures Forked(entries[..j + 1])
  {
    assert ForkAt(entries[..j + 1], i, j);
  }

  method ValidateSequences(entries: seq<Entry>) returns (r: Option<CausalError>)
    ensures r.None? <==> !Forked(entries)
    ensures r.Some? ==> exists j :: FirstFork(entries, j) && r.value == ForkedSequence(entries[j].seqNum)
  {
    var positions: map<(Hash, nat, nat), Hash> := map[];
    for k := 0 to |entries|
      invariant !Forked(entries[..k])
      invariant forall i :: 0 <= i < k ==>
                  SlotOf(entries[i]) in positions && positions[SlotOf(entries[i])] == entries[i].operation
      invariant forall s :: s in positions ==> exists i :: 0 <= i < k && SlotOf(entries[i]) == s
    {
      var slot := SlotOf(entries[k]);
      if slot in positions && positions[slot] != entries[k].operation {
        ghost var i :| 0 <= i < k && SlotOf(entries[i]) == slot;
        ForkInPrefix(entries, i, k);
        assert FirstFork(entries, k);
        ForkOfPrefix(entries, k + 1);
        return Some(ForkedSequence(entries[k].seqNum));
      }
      forall i: int, j: int {:trigger ForkAt(entries[..k + 1], i, j)} | 0 <= i < j < k + 1
        ensures !ForkAt(entries[..k + 1], i, j)
      {
        if j < k { assert !ForkAt(entries[..k], i, j); }
      }
      positions := positions[slot := entries[k].operation];
    }
    assert entries[..|entries|] == entries;
    r := None;
  }

  lemma ForkOfPrefix(entries: seq<Entry>, k: nat)
    requires k <= |entries| && Forked(entries[..k])
    ensures Forked(entries)
  {
    var i, j :| 0 <= i < j < k && ForkAt(entries[..k], i, j);
    assert ForkAt(entries, i, j);
  }

  // ---------- Slots ----------

  /** Slot `x` holds the id, the home and the dependencies of one operation of the graph. */
  ghost predicate SlotAt(g: Graph, byHash: map<Hash, nat>, ids: seq<Hash>, deps: seq<set<Hash>>, x: int)
    requires 0 <= x < |ids| == |deps|
  {
    && ids[x] in g && ids[x] in byHash && byHash[ids[x]] == x
    && deps[x] == g[ids[x]].Dependencies()
  }

  ghost predicate HomeAt(byHash: map<Hash, nat>, ids: seq<Hash>, h: Hash) {
    h in byHash && byHash[h] < |ids| && ids[byHash[h]] == h
  }

  /** The hash index and the vectors beside it describe the graph. */
  ghost predicate Slots(g: Graph, byHash: map<Hash, nat>, ids: seq<Hash>, deps: seq<set<Hash>>) {
    && |ids| == |deps| && byHash.Keys == g.Keys
    && (forall x {:trigger SlotAt(g, byHash, ids, deps, x)} :: 0 <= x < |ids| ==> SlotAt(g, byHash, ids, deps, x))
    && (forall h {:trigger HomeAt(byHash, ids, h)} :: h in g ==> HomeAt(byHash, ids, h))
  }

  ghost predicate IndexedTo(entries: seq<Entry>, byHash: map<Hash, nat>) {
    && (forall i :: 0 <= i < |entries| ==> entries[i].operation in byHash && byHash[entries[i].operation] == i)
    && (forall h :: h in byHash ==> byHash[h] < |entries| && entries[byHash[h]].operation == h)
  }

  method IndexEntries(entries: seq<Entry>) returns (r: Option<map<Hash, nat>>)
    ensures r.Some? <==> DuplicateFree(entries)
    ensures r.Some? ==> IndexedTo(entries, r.value)
  {
    var byHash: map<Hash, nat> := map[];
    for k := 0 to |entries|
      invariant IndexedTo(entries[..k], byHash)
    {
      if entries[k].operation in byHash {
        ghost var i := byHash[entries[k].operation];
        assert entries[..k][i] == entries[i] && entries[i].operation == entries[k].operation;
        return None;
      }
      byHash := byHash[entries[k].operation := k];
    }
    assert entries[..|entries|] == entries;
    r := Some(byHash);
  }

  function IdsOf(entries: seq<Entry>): seq<Hash> {
    seq(|entries|, i requires 0 <= i < |entries| => entries[i].operation)
  }

  function DepsOf(entries: seq<Entry>): seq<set<Hash>> {
    seq(|entries|, i requires 0 <= i < |entries| => entries[i].Dependencies())
  }

  lemma EntriesHaveSlots(entries: seq<Entry>, byHash: map<Hash, nat>)
    requires DuplicateFree(entries) && IndexedTo(entries, byHash)
    ensures Slots(Indexed(entries), byHash, IdsOf(entries), DepsOf(entries))
  {
    var g, ids, deps := Indexed(entries), IdsOf(entries), DepsOf(entries);
    forall x | 0 <= x < |ids| ensures SlotAt(g, byHash, ids, deps, x) {
      EntryHasSlot(entries, byHash, x);
    }
    forall h ensures (h in g <==> h in byHash) && (h in g ==> HomeAt(byHash, ids, h)) {
      HashHasHome(entries, byHash, h);
    }
  }

  lemma EntryHasSlot(entries: seq<Entry>, byHash: map<Hash, nat>, x: nat)
    requires DuplicateFree(entries) && IndexedTo(entries, byHash) && x < |entries|
    ensures SlotAt(Indexed(entries), byHash, IdsOf(entries), DepsOf(entries), x)
  {
    IndexedAt(entries, entries[x]);
  }

  lemma HashHasHome(entries: seq<Entry>, byHash: map<Hash, nat>, h: Hash)
    requires DuplicateFree(entries) && IndexedTo(entries, byHash)
    ensures h in Indexed(entries) <==> h in byHash
    ensures h in byHash ==> HomeAt(byHash, IdsOf(entries), h)
  {
    var g := Indexed(entries);
    if h in g {
      var i :| 0 <= i < |entries| && entries[i] == g[h];
    }
    if h in byHash {
      IndexedAt(entries, entries[byHash[h]]);
    }
  }

  // ---------- Dependents and direct gaps ----------

  /**
   The slots filed under `p` once every slot before `index` is read, and of `index` itself
   only the dependencies in `handled`.
   */
  ghost function Filed(ids: seq<Hash>, deps: seq<set<Hash>>, p: nat, index: nat, handled: set<Hash>): set<nat>
    requires |ids| == |deps| && p < |ids|
  {
    set x: nat | x < |ids| && ids[p] in deps[x] && (x < index || (x == index && ids[p] in handled))
  }

  ghost predicate FiledAt(ids: seq<Hash>, deps: seq<set<Hash>>, dependents: seq<seq<nat>>, p: int, index: nat,
                          handled: set<Hash>)
    requires |ids| == |deps| == |dependents| && 0 <= p < |ids|
  {
    NoRepeats(dependents[p]) && Elements(dependents[p]) == Filed(ids, deps, p, index, handled)
  }

  ghost predicate FiledPartly(ids: seq<Hash>, deps: seq<set<Hash>>, dependents: seq<seq<nat>>, index: nat,
                              handled: set<Hash>)
  {
    && |ids| == |deps| == |dependents|
    && forall p :: 0 <= p < |ids| ==> FiledAt(ids, deps, dependents, p, index, handled)
  }

  /** `dependents[p]` lists, once each, the slots that wait for `ids[p]`. */
  ghost predicate ListedAt(ids: seq<Hash>, deps: seq<set<Hash>>, dependents: seq<seq<nat>>, p: int)
    requires |ids| == |deps| == |dependents| && 0 <= p < |ids|
  {
    && NoRepeats(dependents[p])
    && (forall k :: 0 <= k < |dependents[p]| ==> dependents[p][k] < |ids| && ids[p] in deps[dependents[p][k]])
    && (forall x :: 0 <= x < |ids| && ids[p] in deps[x] ==> x in dependents[p])
  }

  ghost predicate Listed(ids: seq<Hash>, deps: seq<set<Hash>>, dependents: seq<seq<nat>>) {
    && |ids| == |deps| == |dependents|
    && forall p :: 0 <= p < |ids| ==> ListedAt(ids, deps, dependents, p)
  }

  method FileSlot(ids: seq<Hash>, deps: seq<set<Hash>>, byHash: map<Hash, nat>, dependents: seq<seq<nat>>, index: nat,
                  ghost g: Graph)
    returns (filed: seq<seq<nat>>, gaps: set<Hash>)
    requires Slots(g, byHash, ids, deps) && index < |ids|
    requires FiledPartly(ids, deps, dependents, index, {})
    ensures FiledPartly(ids, deps, filed, index, deps[index])
    ensures gaps == deps[index] - g.Keys
  {
    filed, gaps := dependents, {};
    var rest := deps[index];
    ghost var handled: set<Hash> := {};
    while rest != {}
      invariant handled + rest == deps[index] && handled !! rest
      invariant gaps == handled - g.Keys
      invariant FiledPartly(ids, deps, filed, index, handled)
      decreases rest
    {
      var d :| d in rest;
      rest := rest - {d};
      if d in byHash {
        assert HomeAt(byHash, ids, d);
        FileUnder(g, ids, deps, byHash, filed, index, handled, d);
        var p := byHash[d];
        filed := filed[p := filed[p] + [index]];
      } else {
        gaps := gaps + {d};
        FileNowhere(g, ids, deps, byHash, filed, index, handled, d);
      }
      handled := handled + {d};
    }
    assert handled == deps[index];
  }

  lemma FileUnder(g: Graph, ids: seq<Hash>, deps: seq<set<Hash>>, byHash: map<Hash, nat>, filed: seq<seq<nat>>,
                  index: nat, handled: set<Hash>, d: Hash)
    requires Slots(g, byHash, ids, deps) && index < |ids|
    requires HomeAt(byHash, ids, d) && d in deps[index] && d !in handled
    requires FiledPartly(ids, deps, filed, index, handled)
    ensures FiledPartly(ids, deps, filed[byHash[d] := filed[byHash[d]] + [index]], index, handled + {d})
  {
    var next := filed[byHash[d] := filed[byHash[d]] + [index]];
    forall p | 0 <= p < |ids| ensures FiledAt(ids, deps, next, p, index, handled + {d}) {
      assert FiledAt(ids, deps, filed, p, index, handled) && SlotAt(g, byHash, ids, deps, p);
      if p == byHash[d] {
        assert index !in Elements(filed[p]);
        assert forall k :: 0 <= k < |filed[p]| ==> filed[p][k] in Elements(filed[p]);
        assert Elements(next[p]) == Elements(filed[p]) + {index};
        assert Filed(ids, deps, p, index, handled + {d}) == Filed(ids, deps, p, index, handled) + {index};
      } else {
        assert ids[p] != d;
      }
    }
  }

  lemma FileNowhere(g: Graph, ids: seq<Hash>, deps: seq<set<Hash>>, byHash: map<Hash, nat>, filed: seq<seq<nat>>,
                    index: nat, handled: set<Hash>, d: Hash)
    requires Slots(g, byHash, ids, deps) && d !in byHash
    requires FiledPartly(ids, deps, filed, index, handled)
    ensures FiledPartly(ids, deps, filed, index, handled + {d})
  {
    forall p | 0 <= p < |ids| ensures FiledAt(ids, deps, filed, p, index, handled + {d}) {
      assert FiledAt(ids, deps, filed, p, index, handled) && SlotAt(g, byHash, ids, deps, p);
    }
  }

  lemma FileNext(ids: seq<Hash>, deps: seq<set<Hash>>, filed: seq<seq<nat>>, index: nat)
    requires |ids| == |deps| && index < |ids|
    requires FiledPartly(ids, deps, filed, index, deps[index])
    ensures FiledPartly(ids, deps, filed, index + 1, {})
  {
    var next := index + 1;
    forall p | 0 <= p < |ids| ensures FiledAt(ids, deps, filed, p, next, {}) {
      assert FiledAt(ids, deps, filed, p, index, deps[index]);
      assert Filed(ids, deps, p, next, {}) == Filed(ids, deps, p, index, deps[index]);
    }
  }

  lemma FiledIsListed(ids: seq<Hash>, deps: seq<set<Hash>>, filed: seq<seq<nat>>)
    requires |ids| == |deps| && FiledPartly(ids, deps, filed, |ids|, {})
    ensures Listed(ids, deps, filed)
  {
    forall p | 0 <= p < |ids| ensures ListedAt(ids, deps, filed, p) {
      assert FiledAt(ids, deps, filed, p, |ids|, {});
      assert forall k :: 0 <= k < |filed[p]| ==> filed[p][k] in Elements(filed[p]);
      assert forall x :: x in Elements(filed[p]) ==> x in filed[p];
    }
  }

  method LinkSlots(g: Graph, byHash: map<Hash, nat>, ids: seq<Hash>, deps: seq<set<Hash>>)
    returns (dependents: seq<seq<nat>>, missing: seq<set<Hash>>)
    requires Slots(g, byHash, ids, deps)
    ensures Listed(ids, deps, dependents)
    ensures |missing| == |ids| && forall i :: 0 <= i < |ids| ==> missing[i] == deps[i] - g.Keys
  {
    dependents := seq(|ids|, _ => []);
    assert forall p :: 0 <= p < |ids| ==> FiledAt(ids, deps, dependents, p, 0, {});
    missing := [];
    for index := 0 to |ids|
      invariant FiledPartly(ids, deps, dependents, index, {})
      invariant |missing| == index && forall i :: 0 <= i < index ==> missing[i] == deps[i] - g.Keys
    {
      var gaps;
      dependents, gaps := FileSlot(ids, deps, byHash, dependents, index, g);
      FileNext(ids, deps, dependents, index);
      missing := missing + [gaps];
    }
    FiledIsListed(ids, deps, dependents);
  }

  // ---------- Spreading missing roots ----------

  /** The absent ids each slot's operation reaches. */
  ghost function RootsOf(g: Graph, ids: seq<Hash>): seq<set<Hash>> {
    seq(|ids|, i requires 0 <= i < |ids| => MissingRoots(g, ids[i]))
  }

  lemma RootsOfLink(g: Graph, p: Hash, x: Hash)
    requires x in g && p in g[x].Dependencies()
    ensures MissingRoots(g, p) <= MissingRoots(g, x)
  {
    forall m | m in MissingRoots(g, p) ensures m in MissingRoots(g, x) {
      ReachesFirst(g, x, p, m);
    }
  }

  lemma ListedAreTargets(ids: seq<Hash>, deps: seq<set<Hash>>, dependents: seq<seq<nat>>)
    requires Listed(ids, deps, dependents)
    ensures Worklist.Targets(dependents)
  {
    forall p, k | 0 <= p < |dependents| && 0 <= k < |dependents[p]| ensures dependents[p][k] < |dependents| {
      assert ListedAt(ids, deps, dependents, p);
    }
  }

  /** The reached absent ids are themselves spread. */
  lemma RootsAreSpread(g: Graph, byHash: map<Hash, nat>, ids: seq<Hash>, deps: seq<set<Hash>>,
                       dependents: seq<seq<nat>>)
    requires Slots(g, byHash, ids, deps) && Listed(ids, deps, dependents)
    ensures Worklist.Targets(dependents) && Worklist.Spread(dependents, RootsOf(g, ids), {})
  {
    ListedAreTargets(ids, deps, dependents);
    forall p, k | 0 <= p < |dependents| && 0 <= k < |dependents[p]|
      ensures RootsOf(g, ids)[p] <= RootsOf(g, ids)[dependents[p][k]]
    {
      var x := dependents[p][k];
      assert ListedAt(ids, deps, dependents, p) && SlotAt(g, byHash, ids, deps, x);
      RootsOfLink(g, ids[p], ids[x]);
    }
  }

  lemma GapsAreRoots(g: Graph, h: Hash)
    requires h in g
    ensures g[h].Dependencies() - g.Keys <= MissingRoots(g, h)
  {
    forall m | m in g[h].Dependencies() - g.Keys ensures m in MissingRoots(g, h) {
      ReachesDirect(g, h, m);
      MissingRootsExactly(g, h, m);
    }
  }

  /** Spread sets above the direct gaps hold every absent id a walk ends at. */
  lemma {:induction false} SpreadAlong(g: Graph, byHash: map<Hash, nat>, ids: seq<Hash>, deps: seq<set<Hash>>,
                                       dependents: seq<seq<nat>>, missing: seq<set<Hash>>, p: seq<Hash>, i: nat)
    requires Slots(g, byHash, ids, deps) && Listed(ids, deps, dependents) && |missing| == |ids|
    requires forall x :: 0 <= x < |ids| ==> deps[x] - g.Keys <= missing[x]
    requires Worklist.Targets(dependents) && Worklist.Spread(dependents, missing, {})
    requires Walk(g, p) && |p| >= 2 && p[|p| - 1] !in g && i < |ids| && p[0] == ids[i]
    ensures p[|p| - 1] in missing[i]
    decreases |p|
  {
    assert StepAt(g, p, 0) && SlotAt(g, byHash, ids, deps, i);
    if |p| > 2 {
      WalkTail(g, p);
      assert StepAt(g, p[1..], 0);
      assert HomeAt(byHash, ids, p[1]);
      var j := byHash[p[1]];
      SpreadAlong(g, byHash, ids, deps, dependents, missing, p[1..], j);
      assert ListedAt(ids, deps, dependents, j);
      var k :| 0 <= k < |dependents[j]| && dependents[j][k] == i;
    }
  }

  lemma RootsHeld(g: Graph, byHash: map<Hash, nat>, ids: seq<Hash>, deps: seq<set<Hash>>, dependents: seq<seq<nat>>,
                  missing: seq<set<Hash>>, i: nat)
    requires Slots(g, byHash, ids, deps) && Listed(ids, deps, dependents) && |missing| == |ids|
    requires forall x :: 0 <= x < |ids| ==> deps[x] - g.Keys <= missing[x]
    requires Worklist.Targets(dependents) && Worklist.Spread(dependents, missing, {})
    requires i < |ids| && missing[i] <= MissingRoots(g, ids[i])
    ensures missing[i] == MissingRoots(g, ids[i])
  {
    forall m | m in MissingRoots(g, ids[i]) ensures m in missing[i] {
      var p :| Walk(g, p) && |p| >= 2 && p[0] == ids[i] && p[|p| - 1] == m;
      SpreadAlong(g, byHash, ids, deps, dependents, missing, p, i);
    }
  }

  method SpreadRoots(ghost g: Graph, ghost byHash: map<Hash, nat>, ids: seq<Hash>, deps: seq<set<Hash>>,
                     dependents: seq<seq<nat>>, direct: seq<set<Hash>>)
    returns (missing: seq<set<Hash>>)
    requires Slots(g, byHash, ids, deps) && Listed(ids, deps, dependents)
    requires |direct| == |ids| && forall i :: 0 <= i < |ids| ==> direct[i] == deps[i] - g.Keys
    ensures missing == RootsOf(g, ids)
  {
    RootsAreSpread(g, byHash, ids, deps, dependents);
    forall i | 0 <= i < |ids| ensures direct[i] <= RootsOf(g, ids)[i] {
      assert SlotAt(g, byHash, ids, deps, i);
      GapsAreRoots(g, ids[i]);
    }
    missing := Worklist.SpreadItems(dependents, direct, RootsOf(g, ids), DependencyUniverse(g));
    forall i | 0 <= i < |ids| ensures missing[i] == MissingRoots(g, ids[i]) {
      RootsHeld(g, byHash, ids, deps, dependents, missing, i);
    }
  }

  // ---------- The ready-queue sort ----------

  ghost predicate FlagAt(ids: seq<Hash>, c: set<Hash>, complete: seq<bool>, x: int)
    requires 0 <= x < |ids| == |complete|
  {
    complete[x] <==> ids[x] in c
  }

  ghost predicate Flags(g: Graph, ids: seq<Hash>, c: set<Hash>, complete: seq<bool>) {
    && c <= g.Keys && |complete| == |ids|
    && forall x :: 0 <= x < |ids| ==> FlagAt(ids, c, complete, x)
  }

  /** Placing `h` frees exactly the complete operations that waited for it alone. */
  lemma ReadyAfter(g: Graph, byHash: map<Hash, nat>, ids: seq<Hash>, deps: seq<set<Hash>>, c: set<Hash>,
                   complete: seq<bool>, done: set<Hash>, h: Hash)
    requires Slots(g, byHash, ids, deps) && Flags(g, ids, c, complete)
    requires h in Ready(g, c, done) && ClosedIn(g, done)
    ensures Ready(g, c, done + {h}) == Ready(g, c, done) - {h} + ReadyQueue.Freed(ids, deps, complete, h, done + {h})
  {
    var freed := ReadyQueue.Freed(ids, deps, complete, h, done + {h});
    forall u | u in Ready(g, c, done + {h}) && h in g[u].Dependencies() ensures u in freed {
      assert HomeAt(byHash, ids, u);
      var x := byHash[u];
      assert SlotAt(g, byHash, ids, deps, x) && FlagAt(ids, c, complete, x);
    }
    forall u | u in freed ensures u in Ready(g, c, done + {h}) {
      var x :| 0 <= x < |ids| && complete[x] && h in deps[x] && deps[x] <= done + {h} && ids[x] == u;
      assert SlotAt(g, byHash, ids, deps, x) && FlagAt(ids, c, complete, x);
    }
  }

  /** Remove the least-keyed id from a set of indexed ids. */
  method PopFirst(g: Graph, ids: set<Hash>) returns (h: Hash, rest: set<Hash>)
    requires ids <= g.Keys && ids != {}
    ensures h == Least(g, ids) && rest == ids - {h}
  {
    h :| h in ids;
    var left := ids - {h};
    while left != {}
      invariant left <= ids && IsLeast(g, ids - left, h)
      decreases left
    {
      var x :| x in left;
      assert ids - (left - {x}) == ids - left + {x};
      if KeyLess(g[x], g[h]) { h := x; }
      left := left - {x};
    }
    assert ids - left == ids;
    rest := ids - {h};
  }

  /** Placing one more operation keeps the placed set closed and peels the greedy order. */
  lemma GreedyStep(g: Graph, c: set<Hash>, done: set<Hash>, placed: seq<Hash>)
    requires c <= g.Keys && ClosedIn(g, done) && Ready(g, c, done) != {}
    ensures var h := Least(g, Ready(g, c, done));
            && ClosedIn(g, done + {h})
            && placed + [h] + Greedy(g, c, done + {h}) == placed + Greedy(g, c, done)
            && c - (done + {h}) < c - done
  {
  }

  method StartingSet(ghost g: Graph, ghost byHash: map<Hash, nat>, ids: seq<Hash>, deps: seq<set<Hash>>,
                     ghost c: set<Hash>, complete: seq<bool>, counts: seq<nat>)
    returns (ready: set<Hash>)
    requires Slots(g, byHash, ids, deps) && Flags(g, ids, c, complete)
    requires ReadyQueue.Counted(deps, complete, counts, {})
    ensures ready == Ready(g, c, {})
  {
    ready := {};
    for i := 0 to |ids|
      invariant ready == set x | 0 <= x < i && complete[x] && counts[x] == 0 :: ids[x]
    {
      if complete[i] && counts[i] == 0 { ready := ready + {ids[i]}; }
    }
    StartingSetReady(g, byHash, ids, deps, c, complete, counts);
  }

  lemma StartingSetReady(g: Graph, byHash: map<Hash, nat>, ids: seq<Hash>, deps: seq<set<Hash>>, c: set<Hash>,
                         complete: seq<bool>, counts: seq<nat>)
    requires Slots(g, byHash, ids, deps) && Flags(g, ids, c, complete)
    requires ReadyQueue.Counted(deps, complete, counts, {})
    ensures Ready(g, c, {}) == set x | 0 <= x < |ids| && complete[x] && counts[x] == 0 :: ids[x]
  {
    forall x | 0 <= x < |ids| && complete[x] ensures counts[x] == 0 <==> ids[x] in Ready(g, c, {}) {
      assert SlotAt(g, byHash, ids, deps, x) && FlagAt(ids, c, complete, x);
      ReadyQueue.EmptyDifference(deps[x], {});
    }
    forall u | u in Ready(g, c, {})
      ensures exists x :: 0 <= x < |ids| && complete[x] && counts[x] == 0 && ids[x] == u
    {
      assert HomeAt(byHash, ids, u);
      assert FlagAt(ids, c, complete, byHash[u]);
    }
  }

  /** One turn of the sort: place the slot whose id has just left the ready set. */
  method PlaceSlot(ghost g: Graph, ghost byHash: map<Hash, nat>, ids: seq<Hash>, deps: seq<set<Hash>>,
                   dependents: seq<seq<nat>>, ghost c: set<Hash>, complete: seq<bool>, ghost done: set<Hash>,
                   index: nat, counts: seq<nat>, waiting: set<Hash>)
    returns (indegree: seq<nat>, ready: set<Hash>)
    requires Slots(g, byHash, ids, deps) && Listed(ids, deps, dependents) && Flags(g, ids, c, complete)
    requires ReadyQueue.Counted(deps, complete, counts, done) && ClosedIn(g, done)
    requires index < |ids| && ids[index] in Ready(g, c, done)
    requires waiting == Ready(g, c, done) - {ids[index]}
    ensures ReadyQueue.Counted(deps, complete, indegree, done + {ids[index]})
    ensures ready == Ready(g, c, done + {ids[index]})
  {
    assert ListedAt(ids, deps, dependents, index);
    ReadyAfter(g, byHash, ids, deps, c, complete, done, ids[index]);
    indegree, ready := ReadyQueue.Place(ids, deps, complete, done, ids[index], dependents[index], counts, waiting);
  }

  method Sort(g: Graph, byHash: map<Hash, nat>, ids: seq<Hash>, deps: seq<set<Hash>>, dependents: seq<seq<nat>>,
              ghost c: set<Hash>, complete: seq<bool>, counts: seq<nat>)
    returns (order: seq<nat>)
    requires Slots(g, byHash, ids, deps) && Listed(ids, deps, dependents) && Flags(g, ids, c, complete)
    requires ReadyQueue.Counted(deps, complete, counts, {})
    ensures Places(ids, order, Greedy(g, c, {}))
  {
    var indegree := counts;
    var ready := StartingSet(g, byHash, ids, deps, c, complete, counts);
    ghost var done, placed: seq<Hash> := {}, [];
    order := [];
    while ready != {}
      invariant Places(ids, order, placed)
      invariant ClosedIn(g, done) && ready == Ready(g, c, done)
      invariant ReadyQueue.Counted(deps, complete, indegree, done)
      invariant placed + Greedy(g, c, done) == Greedy(g, c, {})
      decreases c - done
    {
      GreedyStep(g, c, done, placed);
      var h, waiting := PopFirst(g, ready);
      assert HomeAt(byHash, ids, h);
      var index := byHash[h];
      PlacesOneMore(ids, order, placed, index);
      order, placed := order + [index], placed + [h];
      indegree, ready := PlaceSlot(g, byHash, ids, deps, dependents, c, complete, done, index, indegree, waiting);
      done := done + {h};
    }
  }

  /** The listed slots hold these ids, in this order. */
  ghost predicate Places(ids: seq<Hash>, order: seq<nat>, placed: seq<Hash>) {
    |order| == |placed| && forall k :: 0 <= k < |order| ==> order[k] < |ids| && ids[order[k]] == placed[k]
  }

  lemma PlacesOneMore(ids: seq<Hash>, order: seq<nat>, placed: seq<Hash>, index: nat)
    requires Places(ids, order, placed) && index < |ids|
    ensures Places(ids, order + [index], placed + [ids[index]])
  {
  }

  // ---------- Counts, report, projection ----------

  lemma AllDependenciesCounted(g: Graph, byHash: map<Hash, nat>, ids: seq<Hash>, deps: seq<set<Hash>>, c: set<Hash>,
                               complete: seq<bool>, x: nat)
    requires Slots(g, byHash, ids, deps) && Flags(g, ids, c, complete) && ClosedIn(g, c)
    requires x < |ids| && complete[x]
    ensures (set d | d in deps[x] && d in byHash && byHash[d] < |complete| && complete[byHash[d]]) == deps[x] - {}
  {
    assert SlotAt(g, byHash, ids, deps, x) && FlagAt(ids, c, complete, x);
    forall d | d in deps[x] ensures d in byHash && byHash[d] < |complete| && complete[byHash[d]] {
      assert HomeAt(byHash, ids, d);
      assert FlagAt(ids, c, complete, byHash[d]);
    }
  }

  /** Count the complete dependencies of each complete slot; all of them are. */
  method CountDependencies(ghost g: Graph, byHash: map<Hash, nat>, ids: seq<Hash>, deps: seq<set<Hash>>,
                           ghost c: set<Hash>, complete: seq<bool>)
    returns (counts: seq<nat>)
    requires Slots(g, byHash, ids, deps) && Flags(g, ids, c, complete) && ClosedIn(g, c)
    ensures ReadyQueue.Counted(deps, complete, counts, {})
  {
    counts := [];
    for x := 0 to |ids|
      invariant |counts| == x
      invariant forall i :: 0 <= i < x && complete[i] ==> counts[i] == |deps[i] - {}|
    {
      if complete[x] {
        AllDependenciesCounted(g, byHash, ids, deps, c, complete, x);
        var present := set d | d in deps[x] && d in byHash && byHash[d] < |complete| && complete[byHash[d]];
        counts := counts + [|present|];
      } else {
        counts := counts + [0];
      }
    }
  }

  /** The complete operations among the first slots. */
  ghost predicate Tallied(byHash: map<Hash, nat>, ids: seq<Hash>, c: set<Hash>, seen: set<Hash>, x: nat)
    requires x <= |ids|
  {
    && (forall h :: h in seen ==> h in byHash && byHash[h] < x && h in c)
    && (forall i :: 0 <= i < x && ids[i] in c ==> ids[i] in seen)
  }

  lemma TallyNext(byHash: map<Hash, nat>, ids: seq<Hash>, c: set<Hash>, seen: set<Hash>, x: nat)
    requires x < |ids| && Tallied(byHash, ids, c, seen, x) && ids[x] in byHash && byHash[ids[x]] == x
    ensures ids[x] !in seen
    ensures Tallied(byHash, ids, c, if ids[x] in c then seen + {ids[x]} else seen, x + 1)
  {
  }

  lemma TallyDone(g: Graph, byHash: map<Hash, nat>, ids: seq<Hash>, deps: seq<set<Hash>>, c: set<Hash>, seen: set<Hash>)
    requires Slots(g, byHash, ids, deps) && c <= g.Keys && Tallied(byHash, ids, c, seen, |ids|)
    ensures seen == c
  {
    forall h | h in c ensures h in seen { assert HomeAt(byHash, ids, h); }
  }

  method CountComplete(ghost g: Graph, ghost byHash: map<Hash, nat>, ids: seq<Hash>, ghost deps: seq<set<Hash>>,
                       ghost c: set<Hash>, complete: seq<bool>)
    returns (count: nat)
    requires Slots(g, byHash, ids, deps) && Flags(g, ids, c, complete)
    ensures count == |c|
  {
    count := 0;
    ghost var seen: set<Hash> := {};
    for x := 0 to |ids|
      invariant Tallied(byHash, ids, c, seen, x) && count == |seen|
    {
      assert SlotAt(g, byHash, ids, deps, x) && FlagAt(ids, c, complete, x);
      TallyNext(byHash, ids, c, seen, x);
      if complete[x] {
        count, seen := count + 1, seen + {ids[x]};
      }
    }
    TallyDone(g, byHash, ids, deps, c, seen);
  }

  /** The blocked operations, least key first. */
  method ReportPending(g: Graph, byHash: map<Hash, nat>, ids: seq<Hash>, ghost deps: seq<set<Hash>>,
                       missing: seq<set<Hash>>, blocked: set<Hash>)
    returns (pending: seq<Pending>)
    requires Slots(g, byHash, ids, deps) && missing == RootsOf(g, ids) && blocked <= g.Keys
    ensures pending == PendingOf(g, KeySorted(g, blocked))
  {
    pending := [];
    var rest := blocked;
    ghost var sorted: seq<Hash> := [];
    while rest != {}
      invariant rest <= blocked && sorted + KeySorted(g, rest) == KeySorted(g, blocked)
      invariant pending == PendingOf(g, sorted)
      decreases rest
    {
      var h, left := PopFirst(g, rest);
      KeySortedStep(g, rest, sorted);
      PendingOneMore(g, sorted, h);
      assert HomeAt(byHash, ids, h);
      pending, sorted := pending + [Pending(h, missing[byHash[h]])], sorted + [h];
      rest := left;
    }
    assert sorted + KeySorted(g, {}) == sorted;
  }

  lemma KeySortedStep(g: Graph, s: set<Hash>, sorted: seq<Hash>)
    requires s <= g.Keys && s != {}
    ensures sorted + [Least(g, s)] + KeySorted(g, s - {Least(g, s)}) == sorted + KeySorted(g, s)
  {
    assert KeySorted(g, s) == [Least(g, s)] + KeySorted(g, s - {Least(g, s)});
  }

  lemma PendingOneMore(g: Graph, sorted: seq<Hash>, h: Hash)
    ensures PendingOf(g, sorted + [h]) == PendingOf(g, sorted) + [Pending(h, MissingRoots(g, h))]
  {
  }

  method BlockedSet(ghost g: Graph, ghost byHash: map<Hash, nat>, ids: seq<Hash>, ghost deps: seq<set<Hash>>,
                    ghost c: set<Hash>, complete: seq<bool>)
    returns (blocked: set<Hash>)
    requires Slots(g, byHash, ids, deps) && Flags(g, ids, c, complete)
    ensures blocked == g.Keys - c
  {
    blocked := {};
    for x := 0 to |ids|
      invariant blocked <= g.Keys - c
      invariant forall i :: 0 <= i < x && ids[i] !in c ==> ids[i] in blocked
    {
      assert SlotAt(g, byHash, ids, deps, x) && FlagAt(ids, c, complete, x);
      if !complete[x] { blocked := blocked + {ids[x]}; }
    }
    forall h | h in g.Keys - c ensures h in blocked { assert HomeAt(byHash, ids, h); }
  }

  lemma CompleteFlagged(g: Graph, byHash: map<Hash, nat>, ids: seq<Hash>, deps: seq<set<Hash>>, complete: seq<bool>)
    requires Slots(g, byHash, ids, deps) && |complete| == |ids|
    requires forall x :: 0 <= x < |ids| ==> (complete[x] <==> MissingRoots(g, ids[x]) == {})
    ensures Flags(g, ids, Complete(g), complete)
  {
    forall x | 0 <= x < |ids| ensures FlagAt(ids, Complete(g), complete, x) {
      assert SlotAt(g, byHash, ids, deps, x);
    }
  }

  /** A listing without repeats is as long as the set it lists exactly when it lists all of it. */
  lemma {:induction false} ListingSize(s: seq<Hash>, c: set<Hash>)
    requires NoRepeats(s) && Elements(s) <= c
    ensures |s| == |Elements(s)| && (|s| == |c| <==> Elements(s) == c)
  {
    ElementsSize(s);
    if Elements(s) != c { ShrinkingSet(Elements(s), c); }
  }

  lemma {:induction false} ElementsSize(s: seq<Hash>)
    requires NoRepeats(s)
    ensures |s| == |Elements(s)|
  {
    if s != [] {
      ElementsSize(s[1..]);
      assert Elements(s) == {s[0]} + Elements(s[1..]);
      assert s[0] !in Elements(s[1..]);
    }
  }

  /** The order over the slots, and the report of the rest, once the hash index stands. */
  method ProjectSlots(g: Graph, byHash: map<Hash, nat>, ids: seq<Hash>, deps: seq<set<Hash>>)
    returns (r: Result<Projection, CausalError>)
    requires Slots(g, byHash, ids, deps)
    ensures !Acyclic(g, Complete(g)) ==> r == Err(Cycle)
    ensures Acyclic(g, Complete(g)) ==>
              r.Ok? && Places(ids, r.value.order, Greedy(g, Complete(g), {})) && r.value.pending == PendingReport(g)
  {
    ghost var c := Complete(g);
    var dependents, direct := LinkSlots(g, byHash, ids, deps);
    var missing := SpreadRoots(g, byHash, ids, deps, dependents, direct);
    var complete := seq(|ids|, x requires 0 <= x < |ids| => missing[x] == {});
    CompleteFlagged(g, byHash, ids, deps, complete);
    CompleteClosed(g);
    var counts := CountDependencies(g, byHash, ids, deps, c, complete);
    var order := Sort(g, byHash, ids, deps, dependents, c, complete, counts);
    var completeCount := CountComplete(g, byHash, ids, deps, c, complete);
    GreedyTotalIffAcyclic(g, c);
    GreedyDistinct(g, c, {});
    ListingSize(Greedy(g, c, {}), c);
    if |order| != completeCount {
      return Err(Cycle);
    }
    var blocked := BlockedSet(g, byHash, ids, deps, c, complete);
    var pending := ReportPending(g, byHash, ids, deps, missing, blocked);
    r := Ok(Projection(order, pending));
  }

  method Project(entries: seq<Entry>) returns (r: Result<Projection, CausalError>)
    ensures ProjectsTo(entries, r)
  {
    var invalid := ValidateSequences(entries);
    if invalid.Some? {
      return Err(invalid.value);
    }
    var index := IndexEntries(entries);
    if index.None? {
      return Err(DuplicateOperation);
    }
    EntriesHaveSlots(entries, index.value);
    var g := Indexed(entries);
    r := ProjectSlots(g, index.value, IdsOf(entries), DepsOf(entries));
    if r.Ok? {
      CompleteClosed(g);
      assert Operations(entries, r.value.order) == Greedy(g, Complete(g), {});
      CanonicalOrderUnique(g, Complete(g), Operations(entries, r.value.order));
    }
  }
}

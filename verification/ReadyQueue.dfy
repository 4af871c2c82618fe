/**
 The counting half of the sort in crates/stickleback/src/causal.rs: entry `x` waits for
 `deps[x]`, keeps a count of those not yet placed, and joins the ready set at zero.
 */
module ReadyQueue {
  type Id = nat

  /** Each complete entry's count is the number of its dependencies not yet placed. */
  ghost predicate Counted(deps: seq<set<Id>>, complete: seq<bool>, indegree: seq<nat>, done: set<Id>) {
    && |indegree| == |complete| == |deps|
    && forall x :: 0 <= x < |deps| && complete[x] ==> indegree[x] == |deps[x] - done|
  }

  /** The complete entries that wait for `h` and, with `done` placed, for nothing else. */
  ghost function Freed(ids: seq<Id>, deps: seq<set<Id>>, complete: seq<bool>, h: Id, done: set<Id>): set<Id>
    requires |ids| == |deps| == |complete|
  {
    set x | 0 <= x < |ids| && complete[x] && h in deps[x] && deps[x] <= done :: ids[x]
  }

  /** The same among the first entries of a list. */
  ghost function FreedAmong(ids: seq<Id>, deps: seq<set<Id>>, complete: seq<bool>, ds: seq<nat>, done: set<Id>): set<Id>
    requires |ids| == |deps| == |complete| && forall k :: 0 <= k < |ds| ==> ds[k] < |ids|
  {
    set k | 0 <= k < |ds| && complete[ds[k]] && deps[ds[k]] <= done :: ids[ds[k]]
  }

  lemma FreedAmongOneMore(ids: seq<Id>, deps: seq<set<Id>>, complete: seq<bool>, ds: seq<nat>, k: nat, done: set<Id>)
    requires |ids| == |deps| == |complete| && forall j :: 0 <= j < |ds| ==> ds[j] < |ids|
    requires k < |ds|
    ensures FreedAmong(ids, deps, complete, ds[..k + 1], done)
         == FreedAmong(ids, deps, complete, ds[..k], done)
          + (if complete[ds[k]] && deps[ds[k]] <= done then {ids[ds[k]]} else {})
  {
    var more := if complete[ds[k]] && deps[ds[k]] <= done then {ids[ds[k]]} else {};
    forall u | u in FreedAmong(ids, deps, complete, ds[..k + 1], done)
      ensures u in FreedAmong(ids, deps, complete, ds[..k], done) + more
    {
      var j :| 0 <= j < k + 1 && complete[ds[..k + 1][j]] && deps[ds[..k + 1][j]] <= done && ids[ds[..k + 1][j]] == u;
      if j < k { assert ds[..k][j] == ds[..k + 1][j]; }
    }
    forall u | u in FreedAmong(ids, deps, complete, ds[..k], done) + more
      ensures u in FreedAmong(ids, deps, complete, ds[..k + 1], done)
    {
      if u in FreedAmong(ids, deps, complete, ds[..k], done) {
        var j :| 0 <= j < k && complete[ds[..k][j]] && deps[ds[..k][j]] <= done && ids[ds[..k][j]] == u;
        assert ds[..k][j] == ds[..k + 1][j];
      } else {
        assert ds[..k + 1][k] == ds[k];
      }
    }
  }

  lemma FreedAmongAll(ids: seq<Id>, deps: seq<set<Id>>, complete: seq<bool>, ds: seq<nat>, h: Id, done: set<Id>)
    requires |ids| == |deps| == |complete|
    requires forall k :: 0 <= k < |ds| ==> ds[k] < |ids| && h in deps[ds[k]]
    requires forall x :: 0 <= x < |ids| && h in deps[x] ==> x in ds
    ensures FreedAmong(ids, deps, complete, ds, done) == Freed(ids, deps, complete, h, done)
  {
    forall u | u in Freed(ids, deps, complete, h, done) ensures u in FreedAmong(ids, deps, complete, ds, done) {
      var x :| 0 <= x < |ids| && complete[x] && h in deps[x] && deps[x] <= done && ids[x] == u;
      var k :| 0 <= k < |ds| && ds[k] == x;
    }
  }

  lemma DropOne(s: set<Id>, done: set<Id>, h: Id)
    requires h !in done
    ensures h in s ==> |s - done| == |s - (done + {h})| + 1
    ensures h !in s ==> s - (done + {h}) == s - done
  {
    if h in s { assert s - done == (s - (done + {h})) + {h}; }
  }

  lemma EmptyDifference(s: set<Id>, done: set<Id>)
    ensures |s - done| == 0 <==> s <= done
  {
    if s <= done {
      assert s - done == {};
    } else {
      var x :| x in s && x !in done;
      assert x in s - done;
    }
  }

  lemma CountsAfter(deps: seq<set<Id>>, complete: seq<bool>, counts: seq<nat>, done: set<Id>, h: Id, x: nat)
    requires Counted(deps, complete, counts, done) && h !in done && x < |deps| && complete[x]
    ensures counts[x] == |deps[x] - (done + {h})| + if h in deps[x] then 1 else 0
    ensures |deps[x] - (done + {h})| == 0 <==> deps[x] <= done + {h}
  {
    DropOne(deps[x], done, h);
    EmptyDifference(deps[x], done + {h});
  }

  /** The first `k` entries of a list. */
  ghost function FirstOf(ds: seq<nat>, k: nat): set<nat>
    requires k <= |ds|
  {
    set j | 0 <= j < k :: ds[j]
  }

  lemma FirstOfNext(ds: seq<nat>, k: nat)
    requires k < |ds| && forall i, j :: 0 <= i < j < |ds| ==> ds[i] != ds[j]
    ensures FirstOf(ds, k + 1) == FirstOf(ds, k) + {ds[k]} && ds[k] !in FirstOf(ds, k)
  {
  }

  /** The counts of the complete entries in a set are one lower, the others as they were. */
  ghost predicate LoweredTo(counts: seq<nat>, indegree: seq<nat>, complete: seq<bool>, low: set<nat>) {
    && |indegree| == |counts| == |complete|
    && forall x :: 0 <= x < |counts| ==> counts[x] == indegree[x] + if x in low && complete[x] then 1 else 0
  }

  lemma LowerOne(counts: seq<nat>, indegree: seq<nat>, complete: seq<bool>, low: set<nat>, x: nat)
    requires LoweredTo(counts, indegree, complete, low) && x < |counts| && x !in low
    ensures !complete[x] ==> LoweredTo(counts, indegree, complete, low + {x})
    ensures complete[x] ==> indegree[x] == counts[x]
    ensures complete[x] && indegree[x] > 0 ==> LoweredTo(counts, indegree[x := indegree[x] - 1], complete, low + {x})
  {
  }

  lemma AllLowered(deps: seq<set<Id>>, complete: seq<bool>, counts: seq<nat>, indegree: seq<nat>, done: set<Id>,
      h: Id, ds: seq<nat>)
    requires Counted(deps, complete, counts, done) && h !in done
    requires LoweredTo(counts, indegree, complete, FirstOf(ds, |ds|))
    requires forall k :: 0 <= k < |ds| ==> ds[k] < |deps| && h in deps[ds[k]]
    requires forall x :: 0 <= x < |deps| && h in deps[x] ==> x in ds
    ensures Counted(deps, complete, indegree, done + {h})
  {
    forall x | 0 <= x < |deps| && complete[x] ensures indegree[x] == |deps[x] - (done + {h})| {
      CountsAfter(deps, complete, counts, done, h, x);
      assert x in FirstOf(ds, |ds|) <==> h in deps[x] by {
        if h in deps[x] {
          var k :| 0 <= k < |ds| && ds[k] == x;
        }
      }
    }
  }

  /** Lower the count of each complete entry that waits for `h`, and enqueue it at zero. */
  method Place(ids: seq<Id>, deps: seq<set<Id>>, complete: seq<bool>, ghost done: set<Id>, ghost h: Id,
               ds: seq<nat>, counts: seq<nat>, waiting: set<Id>)
    returns (indegree: seq<nat>, ready: set<Id>)
    requires |ids| == |deps| && Counted(deps, complete, counts, done) && h !in done
    requires forall j, k :: 0 <= j < k < |ds| ==> ds[j] != ds[k]
    requires forall k :: 0 <= k < |ds| ==> ds[k] < |ids| && h in deps[ds[k]]
    requires forall x :: 0 <= x < |ids| && h in deps[x] ==> x in ds
    ensures Counted(deps, complete, indegree, done + {h})
    ensures ready == waiting + Freed(ids, deps, complete, h, done + {h})
  {
    indegree, ready := counts, waiting;
    for k := 0 to |ds|
      invariant LoweredTo(counts, indegree, complete, FirstOf(ds, k))
      invariant ready == waiting + FreedAmong(ids, deps, complete, ds[..k], done + {h})
    {
      var x := ds[k];
      FreedAmongOneMore(ids, deps, complete, ds, k, done + {h});
      FirstOfNext(ds, k);
      LowerOne(counts, indegree, complete, FirstOf(ds, k), x);
      if complete[x] {
        CountsAfter(deps, complete, counts, done, h, x);
        indegree := indegree[x := indegree[x] - 1];
        if indegree[x] == 0 {
          ready := ready + {ids[x]};
        }
      }
    }
    assert ds[..|ds|] == ds;
    FreedAmongAll(ids, deps, complete, ds, h, done + {h});
    AllLowered(deps, complete, counts, indegree, done, h, ds);
  }
}

/**
 The causal vocabulary of crates/stickleback/src/causal.rs: retained entries, the graph
 they form by operation id, and what it means for one operation to reach another.

 A 32-byte id is modelled by the number it spells in big-endian order, so comparing ids
 lexicographically is comparing numbers. A log id is modelled by a number too: a slice
 holds finitely many log ids, and every finite total order sits inside the numbers.
 */
module CausalGraph {
  import opened Wrappers

  type Hash = nat

  datatype Entry = Entry(
    operation: Hash,
    author: Hash,
    logId: nat,
    seqNum: nat,
    backlink: Option<Hash>,
    parents: seq<Hash>)
  {
    /** The backlink and the cross-author parents, as one set. */
    function Dependencies(): set<Hash> {
      (if backlink.Some? then {backlink.value} else {}) + (set p | p in parents)
    }
  }

  /** Entries by operation id; the entry filed under `h` carries the id `h`. */
  type Graph = g: map<Hash, Entry> | forall h :: h in g ==> g[h].operation == h
    witness map[]

  ghost predicate DuplicateFree(entries: seq<Entry>) {
    forall i, j :: 0 <= i < j < |entries| ==> entries[i].operation != entries[j].operation
  }

  /** The index a map insertion per entry builds: a later entry replaces an earlier one. */
  function Indexed(entries: seq<Entry>): (g: Graph)
    ensures g.Keys == set e | e in entries :: e.operation
    ensures forall h :: h in g ==> g[h] in entries
  {
    if |entries| == 0 then map[]
    else Indexed(entries[..|entries| - 1])[entries[|entries| - 1].operation := entries[|entries| - 1]]
  }

  lemma IndexedAt(entries: seq<Entry>, e: Entry)
    requires DuplicateFree(entries) && e in entries
    ensures e.operation in Indexed(entries) && Indexed(entries)[e.operation] == e
  {
    var f := Indexed(entries)[e.operation];
    assert f in entries && f.operation == e.operation;
  }

  lemma IndexedAgrees(a: seq<Entry>, b: seq<Entry>, h: Hash)
    requires DuplicateFree(b) && h in Indexed(a) && Indexed(a)[h] in b
    ensures h in Indexed(b) && Indexed(b)[h] == Indexed(a)[h]
  {
    IndexedAt(b, Indexed(a)[h]);
  }

  /** Without repeated ids, retaining more entries extends the index. */
  lemma IndexedExtends(a: seq<Entry>, b: seq<Entry>)
    requires DuplicateFree(b) && forall e :: e in a ==> e in b
    ensures Extends(Indexed(a), Indexed(b))
  {
    var ga := Indexed(a);
    forall h | h in ga ensures h in Indexed(b) && Indexed(b)[h] == ga[h] {
      IndexedAgrees(a, b, h);
    }
  }

  /** Without repeated ids, the index depends only on which entries there are. */
  lemma IndexedOfSameEntries(a: seq<Entry>, b: seq<Entry>)
    requires DuplicateFree(a) && DuplicateFree(b)
    requires forall e :: e in a <==> e in b
    ensures Indexed(a) == Indexed(b)
  {
    IndexedExtends(a, b);
    IndexedExtends(b, a);
  }

  // ---------- Reachability ----------

  /** A walk along declared dependencies; only its last stop may be absent from the graph. */
  ghost predicate Walk(g: Graph, p: seq<Hash>) {
    |p| >= 1 && forall i :: 0 <= i < |p| - 1 ==> StepAt(g, p, i)
  }

  ghost predicate StepAt(g: Graph, p: seq<Hash>, i: int)
    requires 0 <= i < |p| - 1
  {
    p[i] in g && p[i + 1] in g[p[i]].Dependencies()
  }

  /** `to` is in the transitive closure of the dependencies of `from`. */
  ghost predicate Reaches(g: Graph, from: Hash, to: Hash) {
    exists p :: Walk(g, p) && |p| >= 2 && p[0] == from && p[|p| - 1] == to
  }

  lemma ReachesDirect(g: Graph, from: Hash, to: Hash)
    requires from in g && to in g[from].Dependencies()
    ensures Reaches(g, from, to)
  {
    var p := [from, to];
    assert StepAt(g, p, 0);
    assert Walk(g, p);
  }

  lemma ReachesFirst(g: Graph, from: Hash, mid: Hash, to: Hash)
    requires from in g && mid in g[from].Dependencies() && Reaches(g, mid, to)
    ensures Reaches(g, from, to)
  {
    var p :| Walk(g, p) && |p| >= 2 && p[0] == mid && p[|p| - 1] == to;
    var q := [from] + p;
    forall i | 0 <= i < |q| - 1
      ensures StepAt(g, q, i)
    {
      if i > 0 { assert StepAt(g, p, i - 1); }
    }
    assert Walk(g, q);
  }

  lemma WalkOn(g: Graph, p: seq<Hash>, to: Hash)
    requires Walk(g, p) && p[|p| - 1] in g && to in g[p[|p| - 1]].Dependencies()
    ensures Walk(g, p + [to])
  {
    var q := p + [to];
    forall i | 0 <= i < |q| - 1
      ensures StepAt(g, q, i)
    {
      if i < |p| - 1 { assert StepAt(g, p, i); }
    }
  }

  lemma ReachesLast(g: Graph, from: Hash, mid: Hash, to: Hash)
    requires Reaches(g, from, mid) && mid in g && to in g[mid].Dependencies()
    ensures Reaches(g, from, to)
  {
    var p :| Walk(g, p) && |p| >= 2 && p[0] == from && p[|p| - 1] == mid;
    WalkOn(g, p, to);
    assert (p + [to])[0] == from;
  }

  lemma WalkTail(g: Graph, p: seq<Hash>)
    requires Walk(g, p) && |p| >= 2
    ensures Walk(g, p[1..])
  {
    forall k | 0 <= k < |p[1..]| - 1 ensures StepAt(g, p[1..], k) { assert StepAt(g, p, k + 1); }
  }

  /** What a dependency walk of at least one step begins with. */
  lemma ReachesSplit(g: Graph, from: Hash, to: Hash) returns (mid: Hash)
    requires Reaches(g, from, to)
    ensures from in g && mid in g[from].Dependencies()
    ensures mid == to || Reaches(g, mid, to)
  {
    var p :| Walk(g, p) && |p| >= 2 && p[0] == from && p[|p| - 1] == to;
    mid := p[1];
    assert StepAt(g, p, 0);
    if mid != to {
      WalkTail(g, p);
      assert p[1..][|p| - 2] == to;
    }
  }

  /** A set closed under dependencies contains every stop of a walk that starts in it. */
  lemma ClosedContainsWalk(g: Graph, c: set<Hash>, p: seq<Hash>, k: nat)
    requires ClosedIn(g, c)
    requires Walk(g, p) && k < |p| && p[0] in c
    ensures p[k] in c
  {
    if k > 0 {
      ClosedContainsWalk(g, c, p, k - 1);
      assert StepAt(g, p, k - 1);
    }
  }

  ghost predicate ClosedIn(g: Graph, c: set<Hash>) {
    c <= g.Keys && forall h :: h in c ==> g[h].Dependencies() <= c
  }

  // ---------- Missing history ----------

  function DependencyUniverse(g: Graph): set<Hash> {
    set h, d | h in g && d in g[h].Dependencies() :: d
  }

  /** The absent ids that `h` depends on, however many steps away. */
  ghost function MissingRoots(g: Graph, h: Hash): set<Hash> {
    set m | m in DependencyUniverse(g) && m !in g && Reaches(g, h, m)
  }

  lemma ReachedInUniverse(g: Graph, from: Hash, to: Hash)
    requires Reaches(g, from, to)
    ensures to in DependencyUniverse(g)
  {
    var p :| Walk(g, p) && |p| >= 2 && p[0] == from && p[|p| - 1] == to;
    assert StepAt(g, p, |p| - 2);
  }

  /** Membership in `MissingRoots` is exactly being absent and reached. */
  lemma MissingRootsExactly(g: Graph, h: Hash, m: Hash)
    ensures m in MissingRoots(g, h) <==> m !in g && Reaches(g, h, m)
  {
    if Reaches(g, h, m) { ReachedInUniverse(g, h, m); }
  }

  /** The operations whose whole history is present. */
  ghost function Complete(g: Graph): set<Hash> {
    set h | h in g && MissingRoots(g, h) == {}
  }

  lemma CompleteClosed(g: Graph)
    ensures ClosedIn(g, Complete(g))
  {
    forall h, d | h in Complete(g) && d in g[h].Dependencies()
      ensures d in Complete(g)
    {
      ReachesDirect(g, h, d);
      MissingRootsExactly(g, h, d);
      forall m ensures m !in MissingRoots(g, d) {
        if m in MissingRoots(g, d) {
          ReachesFirst(g, h, d, m);
          MissingRootsExactly(g, h, m);
          assert false;
        }
      }
    }
  }

  lemma ClosedReachesNothingAbsent(g: Graph, c: set<Hash>, h: Hash, m: Hash)
    requires ClosedIn(g, c) && h in c && m !in g
    ensures !Reaches(g, h, m)
  {
    forall p | Walk(g, p) && |p| >= 2 && p[0] == h
      ensures p[|p| - 1] != m
    {
      ClosedContainsWalk(g, c, p, |p| - 1);
    }
  }

  /** Every set of operations closed under dependencies is complete. */
  lemma ClosedIsComplete(g: Graph, c: set<Hash>)
    requires ClosedIn(g, c)
    ensures c <= Complete(g)
  {
    forall h, m | h in c && m !in g ensures !Reaches(g, h, m) {
      ClosedReachesNothingAbsent(g, c, h, m);
    }
  }

  /** `later` retains everything `earlier` does. */
  ghost predicate Extends(earlier: Graph, later: Graph) {
    forall h :: h in earlier ==> h in later && later[h] == earlier[h]
  }

  /** Late history never blocks an operation that was complete. */
  lemma CompleteGrows(earlier: Graph, later: Graph)
    requires Extends(earlier, later)
    ensures Complete(earlier) <= Complete(later)
    ensures ClosedIn(later, Complete(earlier))
  {
    CompleteClosed(earlier);
    ClosedIsComplete(later, Complete(earlier));
  }
}

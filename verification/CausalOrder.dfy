/**
 The deterministic causal order of crates/stickleback/src/causal.rs, stated without a
 ready queue: at every step, the least-keyed operation whose dependencies are all placed.

 What the order promises is proved here for every graph: it is the one topological order
 that is least-keyed at each place, it is stuck exactly on cycles, and late history only
 inserts into it.
 */
module CausalOrder {
  import opened CausalGraph

  /** The order key: author, then log, then sequence number, then operation id. */
  predicate KeyLess(a: Entry, b: Entry) {
    || a.author < b.author
    || (a.author == b.author && a.logId < b.logId)
    || (a.author == b.author && a.logId == b.logId && a.seqNum < b.seqNum)
    || (a.author == b.author && a.logId == b.logId && a.seqNum == b.seqNum && a.operation < b.operation)
  }

  ghost predicate IsLeast(g: Graph, s: set<Hash>, h: Hash) {
    s <= g.Keys && h in s && forall x :: x in s && x != h ==> KeyLess(g[h], g[x])
  }

  lemma LeastExists(g: Graph, s: set<Hash>)
    requires s != {} && s <= g.Keys
    ensures exists h :: IsLeast(g, s, h)
    decreases |s|
  {
    var x :| x in s;
    if s == {x} {
      assert IsLeast(g, s, x);
    } else {
      var t := s - {x};
      assert s == t + {x};
      LeastExists(g, t);
      var h :| IsLeast(g, t, h);
      assert IsLeast(g, s, if KeyLess(g[h], g[x]) then h else x);
    }
  }

  ghost function Least(g: Graph, s: set<Hash>): (h: Hash)
    requires s != {} && s <= g.Keys
    ensures IsLeast(g, s, h)
  {
    LeastExists(g, s);
    var h :| IsLeast(g, s, h);
    h
  }

  /** The operations that may be placed next. */
  ghost function Ready(g: Graph, c: set<Hash>, done: set<Hash>): set<Hash>
    requires c <= g.Keys
  {
    set h | h in c && h !in done && g[h].Dependencies() <= done
  }

  /** Place the least ready operation until none is ready. */
  ghost function Greedy(g: Graph, c: set<Hash>, done: set<Hash>): seq<Hash>
    requires c <= g.Keys
    decreases |c - done|
  {
    var ready := Ready(g, c, done);
    if ready == {} then []
    else
      var h := Least(g, ready);
      assert c - (done + {h}) < c - done;
      ShrinkingSet(c - (done + {h}), c - done);
      [h] + Greedy(g, c, done + {h})
  }

  lemma ShrinkingSet<T>(a: set<T>, b: set<T>)
    requires a < b
    ensures |a| < |b|
  {
    assert b == a + (b - a);
    assert |b - a| > 0;
  }

  ghost function Elements<T>(s: seq<T>): set<T> {
    set x | x in s
  }

  ghost predicate NoRepeats<T>(s: seq<T>) {
    forall i, j :: 0 <= i < j < |s| ==> s[i] != s[j]
  }

  /** Each operation comes after all it depends on. */
  ghost predicate Topological(g: Graph, done: set<Hash>, s: seq<Hash>) {
    forall i :: 0 <= i < |s| ==> s[i] in g && g[s[i]].Dependencies() <= done + Elements(s[..i])
  }

  /** No operation is placed while a smaller-keyed one is ready. */
  ghost predicate LeastFirst(g: Graph, done: set<Hash>, s: seq<Hash>) {
    forall i, j | 0 <= i < j < |s| && s[i] in g && s[j] in g ::
      g[s[j]].Dependencies() <= done + Elements(s[..i]) ==> KeyLess(g[s[i]], g[s[j]])
  }

  lemma ElementsCons<T>(h: T, t: seq<T>, i: nat)
    requires 0 < i <= |t| + 1
    ensures Elements(([h] + t)[..i]) == {h} + Elements(t[..i - 1])
  {
    assert ([h] + t)[..i] == [h] + t[..i - 1];
  }

  lemma PrependTopological(g: Graph, done: set<Hash>, h: Hash, t: seq<Hash>)
    requires h in g && g[h].Dependencies() <= done
    requires Topological(g, done + {h}, t)
    ensures Topological(g, done, [h] + t)
  {
    var s := [h] + t;
    forall i | 0 <= i < |s|
      ensures s[i] in g && g[s[i]].Dependencies() <= done + Elements(s[..i])
    {
      if i > 0 { ElementsCons(h, t, i); assert s[i] == t[i - 1]; }
    }
  }

  lemma PrependLeastFirst(g: Graph, done: set<Hash>, h: Hash, t: seq<Hash>)
    requires h in g && LeastFirst(g, done + {h}, t)
    requires forall x :: x in t && x in g && g[x].Dependencies() <= done ==> KeyLess(g[h], g[x])
    ensures LeastFirst(g, done, [h] + t)
  {
    var s := [h] + t;
    forall i, j | 0 <= i < j < |s| && s[i] in g && s[j] in g && g[s[j]].Dependencies() <= done + Elements(s[..i])
      ensures KeyLess(g[s[i]], g[s[j]])
    {
      assert s[j] == t[j - 1];
      if i > 0 {
        ElementsCons(h, t, i);
        assert s[i] == t[i - 1];
      } else {
        assert s[..0] == [];
      }
    }
  }

  /** Nothing is placed twice and nothing foreign is placed. */
  lemma {:induction false} GreedyDistinct(g: Graph, c: set<Hash>, done: set<Hash>)
    requires c <= g.Keys
    ensures NoRepeats(Greedy(g, c, done))
    ensures Elements(Greedy(g, c, done)) <= c - done
    decreases |c - done|
  {
    var ready := Ready(g, c, done);
    if ready != {} {
      var h := Least(g, ready);
      ShrinkingSet(c - (done + {h}), c - done);
      GreedyDistinct(g, c, done + {h});
      var t := Greedy(g, c, done + {h});
      assert forall x :: x in t ==> x in Elements(t);
    }
  }

  /** Dependencies come first. */
  lemma {:induction false} GreedyTopological(g: Graph, c: set<Hash>, done: set<Hash>)
    requires c <= g.Keys
    ensures Topological(g, done, Greedy(g, c, done))
    decreases |c - done|
  {
    var ready := Ready(g, c, done);
    if ready != {} {
      var h := Least(g, ready);
      ShrinkingSet(c - (done + {h}), c - done);
      GreedyTopological(g, c, done + {h});
      PrependTopological(g, done, h, Greedy(g, c, done + {h}));
    }
  }

  /** Among the ready, the least key comes first. */
  lemma {:induction false} GreedyLeastFirst(g: Graph, c: set<Hash>, done: set<Hash>)
    requires c <= g.Keys
    ensures LeastFirst(g, done, Greedy(g, c, done))
    decreases |c - done|
  {
    var ready := Ready(g, c, done);
    if ready != {} {
      var h := Least(g, ready);
      ShrinkingSet(c - (done + {h}), c - done);
      GreedyLeastFirst(g, c, done + {h});
      GreedyDistinct(g, c, done + {h});
      var t := Greedy(g, c, done + {h});
      assert forall x :: x in t ==> x in Elements(t);
      PrependLeastFirst(g, done, h, t);
    }
  }

  /** When the order ends nothing more is ready. */
  lemma {:induction false} GreedyExhausts(g: Graph, c: set<Hash>, done: set<Hash>)
    requires c <= g.Keys
    ensures Ready(g, c, done + Elements(Greedy(g, c, done))) == {}
    decreases |c - done|
  {
    var ready := Ready(g, c, done);
    if ready != {} {
      var h := Least(g, ready);
      ShrinkingSet(c - (done + {h}), c - done);
      GreedyExhausts(g, c, done + {h});
      var t := Greedy(g, c, done + {h});
      assert done + {h} + Elements(t) == done + Elements([h] + t);
    } else {
      assert done + Elements<Hash>([]) == done;
    }
  }

  // ---------- Uniqueness ----------

  lemma {:induction false} GreedyUnique(g: Graph, c: set<Hash>, done: set<Hash>, s: seq<Hash>)
    requires c <= g.Keys
    requires NoRepeats(s) && Elements(s) == c - done
    requires Topological(g, done, s) && LeastFirst(g, done, s)
    ensures s == Greedy(g, c, done)
    decreases |s|
  {
    var ready := Ready(g, c, done);
    if s == [] {
      assert forall h :: h in ready ==> h in Elements(s);
    } else {
      assert s[..0] == [];
      assert s[0] in Elements(s) && s[0] in ready;
      forall x | x in ready && x != s[0]
        ensures KeyLess(g[s[0]], g[x])
      {
        assert x in Elements(s);
        var j :| 0 <= j < |s| && s[j] == x;
      }
      var h := Least(g, ready);
      assert h == s[0];
      var t := s[1..];
      assert s == [h] + t;
      TailOfOrder(g, done, h, t);
      forall x ensures x in Elements(t) <==> x in c - (done + {h}) {
        assert x in Elements(s) <==> x == h || x in Elements(t);
        if x in Elements(t) { var k :| 0 <= k < |t| && t[k] == x; assert t[k] == s[k + 1]; }
      }
      GreedyUnique(g, c, done + {h}, t);
    }
  }

  lemma TailTopological(g: Graph, done: set<Hash>, h: Hash, t: seq<Hash>)
    requires Topological(g, done, [h] + t)
    ensures Topological(g, done + {h}, t)
  {
    var s := [h] + t;
    forall i | 0 <= i < |t|
      ensures t[i] in g && g[t[i]].Dependencies() <= done + {h} + Elements(t[..i])
    {
      assert t[i] == s[i + 1];
      ElementsCons(h, t, i + 1);
    }
  }

  lemma TailLeastFirst(g: Graph, done: set<Hash>, h: Hash, t: seq<Hash>)
    requires LeastFirst(g, done, [h] + t)
    ensures LeastFirst(g, done + {h}, t)
  {
    var s := [h] + t;
    forall i, j | 0 <= i < j < |t| && t[i] in g && t[j] in g
               && g[t[j]].Dependencies() <= done + {h} + Elements(t[..i])
      ensures KeyLess(g[t[i]], g[t[j]])
    {
      assert t[i] == s[i + 1] && t[j] == s[j + 1];
      ElementsCons(h, t, i + 1);
      assert done + Elements(s[..i + 1]) == done + {h} + Elements(t[..i]);
    }
  }

  lemma TailOfOrder(g: Graph, done: set<Hash>, h: Hash, t: seq<Hash>)
    requires NoRepeats([h] + t)
    requires Topological(g, done, [h] + t) && LeastFirst(g, done, [h] + t)
    ensures NoRepeats(t)
    ensures Topological(g, done + {h}, t) && LeastFirst(g, done + {h}, t)
  {
    assert forall i :: 0 <= i < |t| ==> t[i] == ([h] + t)[i + 1];
    TailTopological(g, done, h, t);
    TailLeastFirst(g, done, h, t);
  }

  // ---------- Cycles ----------

  ghost predicate Acyclic(g: Graph, c: set<Hash>) {
    forall h :: h in c ==> !Reaches(g, h, h)
  }

  lemma Pigeonhole(p: seq<Hash>, s: set<Hash>) returns (i: nat, j: nat)
    requires |p| > |s| && forall k :: 0 <= k < |p| ==> p[k] in s
    ensures i < j < |p| && p[i] == p[j]
    decreases |s|
  {
    var last := p[|p| - 1];
    if k :| 0 <= k < |p| - 1 && p[k] == last {
      i, j := k, |p| - 1;
    } else {
      i, j := Pigeonhole(p[..|p| - 1], s - {last});
    }
  }

  /** Where every operation still waits on another that waits, walks of any length exist. */
  lemma StuckWalk(g: Graph, c: set<Hash>, done: set<Hash>, n: nat) returns (p: seq<Hash>)
    requires ClosedIn(g, c) && c - done != {} && Ready(g, c, done) == {}
    ensures Walk(g, p) && |p| == n + 1
    ensures forall k :: 0 <= k < |p| ==> p[k] in c - done
  {
    if n == 0 {
      var h :| h in c - done;
      p := [h];
    } else {
      var q := StuckWalk(g, c, done, n - 1);
      var h := q[|q| - 1];
      assert h !in Ready(g, c, done);
      var d :| d in g[h].Dependencies() && d !in done;
      WalkOn(g, q, d);
      p := q + [d];
    }
  }

  lemma SliceOfWalk(g: Graph, p: seq<Hash>, i: nat, j: nat)
    requires Walk(g, p) && i < j < |p|
    ensures Reaches(g, p[i], p[j])
  {
    var q := p[i..j + 1];
    forall k | 0 <= k < |q| - 1
      ensures StepAt(g, q, k)
    {
      assert StepAt(g, p, i + k);
    }
    assert Walk(g, q) && q[0] == p[i] && q[|q| - 1] == p[j];
  }

  lemma StuckHasCycle(g: Graph, c: set<Hash>, done: set<Hash>)
    requires ClosedIn(g, c) && c - done != {} && Ready(g, c, done) == {}
    ensures !Acyclic(g, c)
  {
    var p := StuckWalk(g, c, done, |c - done|);
    var i, j := Pigeonhole(p, c - done);
    SliceOfWalk(g, p, i, j);
    assert p[i] in c && Reaches(g, p[i], p[i]);
  }

  /** Walking dependencies from a placed operation only moves to earlier places. */
  lemma WalkDescends(g: Graph, s: seq<Hash>, p: seq<Hash>, i: nat, k: nat) returns (j: nat)
    requires Topological(g, {}, s)
    requires Walk(g, p) && k < |p| && i < |s| && p[0] == s[i]
    ensures j <= i && s[j] == p[k] && (k > 0 ==> j < i)
  {
    if k == 0 {
      j := i;
    } else {
      var m := WalkDescends(g, s, p, i, k - 1);
      assert StepAt(g, p, k - 1);
      assert p[k] in {} + Elements(s[..m]);
      j :| 0 <= j < m && s[..m][j] == p[k];
    }
  }

  /** Reachability between placed operations implies precedence. */
  lemma ReachedComesEarlier(g: Graph, s: seq<Hash>, i: nat, a: Hash) returns (j: nat)
    requires Topological(g, {}, s) && i < |s| && Reaches(g, s[i], a)
    ensures j < i && s[j] == a
  {
    var p :| Walk(g, p) && |p| >= 2 && p[0] == s[i] && p[|p| - 1] == a;
    j := WalkDescends(g, s, p, i, |p| - 1);
  }

  /** The order places everything exactly when the operations contain no cycle. */
  lemma GreedyTotalIffAcyclic(g: Graph, c: set<Hash>)
    requires ClosedIn(g, c)
    ensures Elements(Greedy(g, c, {})) == c <==> Acyclic(g, c)
  {
    var s := Greedy(g, c, {});
    GreedyDistinct(g, c, {});
    GreedyTopological(g, c, {});
    GreedyExhausts(g, c, {});
    assert {} + Elements(s) == Elements(s);
    if Elements(s) != c {
      assert c - Elements(s) != {};
      StuckHasCycle(g, c, Elements(s));
    } else {
      forall h | h in c ensures !Reaches(g, h, h) {
        assert h in Elements(s);
        var i :| 0 <= i < |s| && s[i] == h;
        if Reaches(g, h, h) {
          var j := ReachedComesEarlier(g, s, i, h);
          assert false;
        }
      }
    }
  }

  /** A listing of all of `c`, each once, dependencies first, least key first among the ready. */
  ghost predicate CanonicalOrder(g: Graph, c: set<Hash>, s: seq<Hash>) {
    NoRepeats(s) && Elements(s) == c && Topological(g, {}, s) && LeastFirst(g, {}, s)
  }

  /** There is at most one such listing, it exists exactly without cycles, and it is the greedy one. */
  lemma CanonicalOrderUnique(g: Graph, c: set<Hash>, s: seq<Hash>)
    requires ClosedIn(g, c)
    ensures CanonicalOrder(g, c, s) <==> Acyclic(g, c) && s == Greedy(g, c, {})
  {
    GreedyTotalIffAcyclic(g, c);
    if CanonicalOrder(g, c, s) {
      assert c - {} == c;
      GreedyUnique(g, c, {}, s);
    } else if s == Greedy(g, c, {}) {
      GreedyDistinct(g, c, {});
      GreedyTopological(g, c, {});
      GreedyLeastFirst(g, c, {});
    }
  }

  // ---------- Stability ----------

  /** The subsequence of the elements that belong to `c`. */
  ghost function Restrict(s: seq<Hash>, c: set<Hash>): seq<Hash> {
    if s == [] then []
    else (if s[0] in c then [s[0]] else []) + Restrict(s[1..], c)
  }

  /**
   Late history never reorders what was placed: the order over more operations, read only at
   the operations of a dependency-closed part, is the order of that part.
   */
  lemma {:induction false} GreedyStable(g: Graph, c: set<Hash>, g': Graph, c': set<Hash>, done: set<Hash>)
    requires Extends(g, g') && ClosedIn(g, c)
    requires c <= c' <= g'.Keys
    ensures Restrict(Greedy(g', c', done), c) == Greedy(g, c, done * c)
    decreases |c' - done|
  {
    var ready := Ready(g', c', done);
    if ready == {} {
      ReadyRestricted(g, c, g', c', done);
    } else {
      var h := Least(g', ready);
      ShrinkingSet(c' - (done + {h}), c' - done);
      GreedyStable(g, c, g', c', done + {h});
      GreedyStableStep(g, c, g', c', done, h);
    }
  }

  lemma GreedyStableStep(g: Graph, c: set<Hash>, g': Graph, c': set<Hash>, done: set<Hash>, h: Hash)
    requires Extends(g, g') && ClosedIn(g, c) && c <= c' <= g'.Keys
    requires Ready(g', c', done) != {} && h == Least(g', Ready(g', c', done))
    requires Restrict(Greedy(g', c', done + {h}), c) == Greedy(g, c, (done + {h}) * c)
    ensures Restrict(Greedy(g', c', done), c) == Greedy(g, c, done * c)
  {
    ReadyRestricted(g, c, g', c', done);
    RestrictCons(h, Greedy(g', c', done + {h}), c);
    if h in c {
      LeastRestricted(g, c, g', Ready(g', c', done), h);
      assert (done + {h}) * c == done * c + {h};
    } else {
      assert (done + {h}) * c == done * c;
    }
  }

  lemma ReadyRestricted(g: Graph, c: set<Hash>, g': Graph, c': set<Hash>, done: set<Hash>)
    requires Extends(g, g') && ClosedIn(g, c) && c <= c' <= g'.Keys
    ensures Ready(g, c, done * c) == Ready(g', c', done) * c
  {
  }

  lemma LeastRestricted(g: Graph, c: set<Hash>, g': Graph, ready: set<Hash>, h: Hash)
    requires Extends(g, g') && c <= g.Keys && h in c && IsLeast(g', ready, h)
    ensures IsLeast(g, ready * c, h) && Least(g, ready * c) == h
  {
    assert IsLeast(g, ready * c, h);
  }

  lemma RestrictCons(h: Hash, t: seq<Hash>, c: set<Hash>)
    ensures Restrict([h] + t, c) == if h in c then [h] + Restrict(t, c) else Restrict(t, c)
  {
    assert ([h] + t)[1..] == t;
  }

  // ---------- Sorting by key ----------

  /** A set of operations listed in key order. */
  ghost predicate KeyOrdered(g: Graph, r: seq<Hash>)
    requires Elements(r) <= g.Keys
  {
    forall i, j :: 0 <= i < j < |r| ==> r[i] in g && r[j] in g && KeyLess(g[r[i]], g[r[j]])
  }

  lemma PrependLeast(g: Graph, s: set<Hash>, h: Hash, t: seq<Hash>)
    requires IsLeast(g, s, h) && Elements(t) == s - {h} && NoRepeats(t) && KeyOrdered(g, t)
    ensures Elements([h] + t) == s && NoRepeats([h] + t) && KeyOrdered(g, [h] + t)
  {
    assert forall i :: 0 <= i < |t| ==> t[i] in Elements(t);
    assert Elements([h] + t) == {h} + Elements(t);
  }

  ghost function KeySorted(g: Graph, s: set<Hash>): (r: seq<Hash>)
    requires s <= g.Keys
    ensures Elements(r) == s && NoRepeats(r) && KeyOrdered(g, r)
    decreases |s|
  {
    if s == {} then []
    else
      var h := Least(g, s);
      ShrinkingSet(s - {h}, s);
      var t := KeySorted(g, s - {h});
      PrependLeast(g, s, h, t);
      [h] + t
  }
}

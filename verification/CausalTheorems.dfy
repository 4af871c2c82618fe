/**
 What callers of crates/stickleback/src/causal.rs rely on across calls: the projection
 depends only on which entries are retained, late history only inserts into it, and the
 reachability query agrees with it.
 */
module CausalTheorems {
  import opened Wrappers
  import opened CausalGraph
  import opened CausalOrder
  import opened CausalProjection

  // ---------- Arrangement of the slice ----------

  lemma ForkedByEntries(entries: seq<Entry>)
    ensures Forked(entries) <==>
            exists e, f :: e in entries && f in entries && e.author == f.author && e.logId == f.logId
                           && e.seqNum == f.seqNum && e.operation != f.operation
  {
    if Forked(entries) {
      var i, j :| 0 <= i < j < |entries| && ForkAt(entries, i, j);
      assert entries[i] in entries && entries[j] in entries;
    }
    if e, f :| e in entries && f in entries && e.author == f.author && e.logId == f.logId && e.seqNum == f.seqNum
               && e.operation != f.operation {
      var i :| 0 <= i < |entries| && entries[i] == e;
      var j :| 0 <= j < |entries| && entries[j] == f;
      assert ForkAt(entries, i, j) && ForkAt(entries, j, i);
    }
  }

  lemma RepeatedEntry(entries: seq<Entry>, i: nat, j: nat)
    requires i < j < |entries| && entries[i] == entries[j]
    ensures multiset(entries)[entries[i]] >= 2
  {
    var e := entries[i];
    assert entries == entries[..j] + [e] + entries[j + 1..];
    assert entries[..j][i] == e;
    assert e in multiset(entries[..j]);
  }

  lemma {:induction false} SingleEntries(entries: seq<Entry>, e: Entry)
    requires DuplicateFree(entries)
    ensures multiset(entries)[e] <= 1
  {
    if e in entries {
      var i :| 0 <= i < |entries| && entries[i] == e;
      assert entries == entries[..i] + [e] + entries[i + 1..];
      assert e !in entries[..i] && e !in entries[i + 1..];
      assert multiset(entries) == multiset(entries[..i]) + multiset{e} + multiset(entries[i + 1..]);
    }
  }

  lemma SameMembers(a: seq<Entry>, b: seq<Entry>)
    requires multiset(a) == multiset(b)
    ensures forall e :: e in a <==> e in b
  {
    forall e ensures e in a <==> e in b {
      assert e in a <==> e in multiset(a);
      assert e in b <==> e in multiset(b);
    }
  }

  lemma DuplicateFreeRearranged(a: seq<Entry>, b: seq<Entry>)
    requires multiset(a) == multiset(b) && DuplicateFree(a)
    ensures DuplicateFree(b)
  {
    SameMembers(a, b);
    forall i, j | 0 <= i < j < |b| ensures b[i].operation != b[j].operation {
      if b[i].operation == b[j].operation {
        IndexedAt(a, b[i]);
        IndexedAt(a, b[j]);
        RepeatedEntry(b, i, j);
        SingleEntries(a, b[i]);
        assert false;
      }
    }
  }

  /**
   Any rearrangement of the slice gives the same ids in the same order and the same pending
   report, or fails for the same reason; only which fork is met first may differ.
   */
  lemma ProjectionIgnoresArrangement(a: seq<Entry>, b: seq<Entry>,
                                     ra: Result<Projection, CausalError>, rb: Result<Projection, CausalError>)
    requires multiset(a) == multiset(b) && ProjectsTo(a, ra) && ProjectsTo(b, rb)
    ensures ra.Ok? <==> rb.Ok?
    ensures ra.Ok? ==> Operations(a, ra.value.order) == Operations(b, rb.value.order)
                       && ra.value.pending == rb.value.pending
    ensures ra.Err? ==> ra == rb || (ra.error.ForkedSequence? && rb.error.ForkedSequence?)
  {
    SameMembers(a, b);
    ForkedByEntries(a);
    ForkedByEntries(b);
    if !Forked(a) {
      if DuplicateFree(a) {
        DuplicateFreeRearranged(a, b);
        IndexedOfSameEntries(a, b);
        SameOrder(a, b, ra, rb);
      } else if DuplicateFree(b) {
        DuplicateFreeRearranged(b, a);
      }
    }
  }

  lemma SameOrder(a: seq<Entry>, b: seq<Entry>,
                  ra: Result<Projection, CausalError>, rb: Result<Projection, CausalError>)
    requires !Forked(a) && !Forked(b) && DuplicateFree(a) && DuplicateFree(b) && Indexed(a) == Indexed(b)
    requires ProjectsTo(a, ra) && ProjectsTo(b, rb)
    ensures ra.Ok? <==> rb.Ok?
    ensures ra.Ok? ==> Operations(a, ra.value.order) == Operations(b, rb.value.order)
                       && ra.value.pending == rb.value.pending
    ensures ra.Err? ==> ra == rb
  {
    var g := Indexed(a);
    if ra.Ok? {
      CompleteClosed(g);
      CanonicalOrderUnique(g, Complete(g), Operations(a, ra.value.order));
      CanonicalOrderUnique(g, Complete(g), Operations(b, rb.value.order));
    }
  }

  // ---------- Late history ----------

  /** Strictly increasing places of `long` at which `short` is read off. */
  ghost predicate EmbedsAt(short: seq<Hash>, long: seq<Hash>, places: seq<nat>) {
    && |places| == |short|
    && (forall k :: 0 <= k < |places| ==> places[k] < |long| && long[places[k]] == short[k])
    && (forall j, k :: 0 <= j < k < |places| ==> places[j] < places[k])
  }

  function Moved(places: seq<nat>): seq<nat> {
    seq(|places|, k requires 0 <= k < |places| => places[k] + 1)
  }

  lemma EmbedsBehind(short: seq<Hash>, long: seq<Hash>, places: seq<nat>, x: Hash)
    requires EmbedsAt(short, long, places)
    ensures EmbedsAt(short, [x] + long, Moved(places))
  {
    forall k | 0 <= k < |places| ensures ([x] + long)[Moved(places)[k]] == short[k] {
      assert long[places[k]] == short[k];
    }
  }

  lemma EmbedsWith(short: seq<Hash>, long: seq<Hash>, places: seq<nat>, x: Hash)
    requires EmbedsAt(short, [x] + long, Moved(places))
    ensures EmbedsAt([x] + short, [x] + long, [0] + Moved(places))
  {
    var all := [0] + Moved(places);
    forall k | 0 <= k < |all| ensures all[k] < |[x] + long| && ([x] + long)[all[k]] == ([x] + short)[k] {
      if k > 0 { assert Moved(places)[k - 1] == all[k]; }
    }
  }

  lemma {:induction false} RestrictEmbeds(s: seq<Hash>, c: set<Hash>) returns (places: seq<nat>)
    ensures EmbedsAt(Restrict(s, c), s, places)
  {
    if s == [] {
      places := [];
    } else {
      var rest := RestrictEmbeds(s[1..], c);
      assert s == [s[0]] + s[1..];
      EmbedsBehind(Restrict(s[1..], c), s[1..], rest, s[0]);
      EmbedsWith(Restrict(s[1..], c), s[1..], rest, s[0]);
      places := if s[0] in c then [0] + Moved(rest) else Moved(rest);
    }
  }

  lemma OrdersNest(ga: Graph, gb: Graph, oa: seq<Hash>, ob: seq<Hash>)
    requires Extends(ga, gb)
    requires CanonicalOrder(ga, Complete(ga), oa) && CanonicalOrder(gb, Complete(gb), ob)
    ensures Complete(ga) <= Complete(gb) && oa == Restrict(ob, Complete(ga))
  {
    CompleteGrows(ga, gb);
    CompleteClosed(ga);
    CompleteClosed(gb);
    CanonicalOrderUnique(ga, Complete(ga), oa);
    CanonicalOrderUnique(gb, Complete(gb), ob);
    GreedyStable(ga, Complete(ga), gb, Complete(gb), {});
    assert {} * Complete(ga) == {};
  }

  /**
   If a slice and a larger one both project, the old order is a subsequence of the new one,
   namely the new order read at the operations that were complete before, and nothing that
   was projected becomes pending.
   */
  lemma LateHistoryOnlyInserts(a: seq<Entry>, b: seq<Entry>, pa: Projection, pb: Projection) returns (places: seq<nat>)
    requires forall e :: e in a ==> e in b
    requires ProjectsTo(a, Ok(pa)) && ProjectsTo(b, Ok(pb))
    ensures EmbedsAt(Operations(a, pa.order), Operations(b, pb.order), places)
    ensures Operations(a, pa.order) == Restrict(Operations(b, pb.order), Complete(Indexed(a)))
    ensures forall i, k :: 0 <= i < |pa.order| && 0 <= k < |pb.pending| ==>
              pb.pending[k].operation != Operations(a, pa.order)[i]
  {
    IndexedExtends(a, b);
    OrdersNest(Indexed(a), Indexed(b), Operations(a, pa.order), Operations(b, pb.order));
    places := RestrictEmbeds(Operations(b, pb.order), Complete(Indexed(a)));
    NothingReblocked(Indexed(a), Indexed(b), Operations(a, pa.order), pb.pending);
  }

  lemma NothingReblocked(ga: Graph, gb: Graph, placed: seq<Hash>, pending: seq<Pending>)
    requires Complete(ga) <= Complete(gb) && Elements(placed) == Complete(ga) && pending == PendingReport(gb)
    ensures forall i, k :: 0 <= i < |placed| && 0 <= k < |pending| ==> pending[k].operation != placed[i]
  {
    var blocked := KeySorted(gb, gb.Keys - Complete(gb));
    forall i, k | 0 <= i < |placed| && 0 <= k < |pending| ensures pending[k].operation != placed[i] {
      assert placed[i] in Elements(placed);
      assert blocked[k] in Elements(blocked);
    }
  }

  /** What the report says: exactly the incomplete operations, each with exactly the absent ids it reaches. */
  lemma PendingNamesWhatIsMissing(entries: seq<Entry>, p: Projection, h: Hash)
    requires ProjectsTo(entries, Ok(p))
    ensures (exists k :: 0 <= k < |p.pending| && p.pending[k].operation == h)
            <==> h in Indexed(entries) && exists m :: m !in Indexed(entries) && Reaches(Indexed(entries), h, m)
    ensures forall k, m :: 0 <= k < |p.pending| ==>
              (m in p.pending[k].missing
               <==> m !in Indexed(entries) && Reaches(Indexed(entries), p.pending[k].operation, m))
  {
    var g := Indexed(entries);
    var sorted := KeySorted(g, g.Keys - Complete(g));
    PendingAre(g, sorted, h);
    IncompleteReachesMissing(g, h);
    forall k, m | 0 <= k < |p.pending|
      ensures m in p.pending[k].missing <==> m !in g && Reaches(g, p.pending[k].operation, m)
    {
      MissingRootsExactly(g, sorted[k], m);
    }
  }

  /** The pending list has one entry for each listed operation. */
  lemma PendingAre(g: Graph, sorted: seq<Hash>, h: Hash)
    ensures (exists k :: 0 <= k < |PendingOf(g, sorted)| && PendingOf(g, sorted)[k].operation == h) <==>
            h in Elements(sorted)
  {
    if h in Elements(sorted) {
      var k :| 0 <= k < |sorted| && sorted[k] == h;
      assert PendingOf(g, sorted)[k].operation == h;
    }
  }

  lemma IncompleteReachesMissing(g: Graph, h: Hash)
    ensures h in g.Keys - Complete(g) <==> h in g && exists m :: m !in g && Reaches(g, h, m)
  {
    if h in g {
      forall m ensures m in MissingRoots(g, h) <==> m !in g && Reaches(g, h, m) { MissingRootsExactly(g, h, m); }
      if h !in Complete(g) {
        var m :| m in MissingRoots(g, h);
      }
    }
  }

  // ---------- The reachability query ----------

  method ListIds(ids: set<Hash>) returns (listing: seq<Hash>)
    ensures Elements(listing) == ids
  {
    listing := [];
    var rest := ids;
    while rest != {}
      invariant rest <= ids && Elements(listing) == ids - rest
      decreases rest
    {
      var h :| h in rest;
      assert Elements(listing + [h]) == Elements(listing) + {h};
      rest, listing := rest - {h}, listing + [h];
    }
  }

  /**
   The search so far: what is seen or stacked is reached from `later`, and everything one step
   beyond `later` or beyond what is seen is itself seen or stacked.
   */
  ghost predicate Searching(g: Graph, later: Hash, seen: set<Hash>, stacked: set<Hash>) {
    && later in g && g[later].Dependencies() <= seen + stacked
    && (forall h :: h in seen + stacked ==> Reaches(g, later, h))
    && (forall h :: h in seen && h in g ==> g[h].Dependencies() <= seen + stacked)
  }

  lemma SearchStarts(g: Graph, later: Hash)
    requires later in g
    ensures Searching(g, later, {}, g[later].Dependencies())
  {
    forall h | h in g[later].Dependencies() ensures Reaches(g, later, h) { ReachesDirect(g, later, h); }
  }

  lemma SearchVisits(g: Graph, later: Hash, seen: set<Hash>, stacked: set<Hash>, h: Hash)
    requires Searching(g, later, seen, stacked + {h})
    ensures Searching(g, later, seen + {h}, stacked + if h in g then g[h].Dependencies() else {})
  {
    assert seen + (stacked + {h}) == (seen + {h}) + stacked;
    if h in g {
      forall d | d in g[h].Dependencies() ensures Reaches(g, later, d) { ReachesLast(g, later, h, d); }
    }
  }

  lemma SearchedWalks(g: Graph, later: Hash, seen: set<Hash>, p: seq<Hash>, k: nat)
    requires Searching(g, later, seen, {}) && Walk(g, p) && p[0] == later && 1 <= k < |p|
    ensures p[k] in seen
  {
    assert StepAt(g, p, k - 1);
    if k > 1 { SearchedWalks(g, later, seen, p, k - 1); }
  }

  lemma SearchedEverywhere(g: Graph, later: Hash, seen: set<Hash>, earlier: Hash)
    requires Searching(g, later, seen, {}) && earlier !in seen
    ensures !Reaches(g, later, earlier)
  {
    forall p | Walk(g, p) && |p| >= 2 && p[0] == later ensures p[|p| - 1] != earlier {
      SearchedWalks(g, later, seen, p, |p| - 1);
    }
  }

  lemma PopSplits(pending: seq<Hash>)
    requires pending != []
    ensures Elements(pending) == Elements(pending[..|pending| - 1]) + {pending[|pending| - 1]}
  {
  }

  lemma ElementsAppend(a: seq<Hash>, b: seq<Hash>)
    ensures Elements(a + b) == Elements(a) + Elements(b)
  {
  }

  lemma SeenGrows(g: Graph, later: Hash, seen: set<Hash>, h: Hash)
    requires Reaches(g, later, h) && h !in seen
    ensures |DependencyUniverse(g) - (seen + {h})| < |DependencyUniverse(g) - seen|
  {
    ReachedInUniverse(g, later, h);
    ShrinkingSet(DependencyUniverse(g) - (seen + {h}), DependencyUniverse(g) - seen);
  }

  /** Depth-first search; it ends on every graph, cyclic ones included. */
  method HappensBefore(g: Graph, earlier: Hash, later: Hash) returns (r: bool)
    ensures r <==> Reaches(g, later, earlier)
  {
    if later !in g {
      if Reaches(g, later, earlier) { var mid := ReachesSplit(g, later, earlier); }
      return false;
    }
    var seen: set<Hash> := {};
    var pending := ListIds(g[later].Dependencies());
    SearchStarts(g, later);
    while pending != []
      invariant Searching(g, later, seen, Elements(pending)) && earlier !in seen
      decreases |DependencyUniverse(g) - seen|, |pending|
    {
      var operation := pending[|pending| - 1];
      PopSplits(pending);
      pending := pending[..|pending| - 1];
      if operation == earlier {
        return true;
      }
      if operation in seen {
        assert seen + (Elements(pending) + {operation}) == seen + Elements(pending);
      } else {
        SeenGrows(g, later, seen, operation);
        SearchVisits(g, later, seen, Elements(pending), operation);
        seen := seen + {operation};
        if operation in g {
          var more := ListIds(g[operation].Dependencies());
          ElementsAppend(pending, more);
          pending := pending + more;
        }
      }
    }
    assert Elements(pending) == {};
    SearchedEverywhere(g, later, seen, earlier);
    r := false;
  }

  /** For projected operations, the query answering yes means coming earlier in the order. */
  lemma HappensBeforeIsPrecedence(entries: seq<Entry>, p: Projection, i: nat, earlier: Hash) returns (j: nat)
    requires ProjectsTo(entries, Ok(p)) && i < |p.order|
    requires Reaches(Indexed(entries), Operations(entries, p.order)[i], earlier)
    ensures j < i && Operations(entries, p.order)[j] == earlier
  {
    j := ReachedComesEarlier(Indexed(entries), Operations(entries, p.order), i, earlier);
  }

  // ---------- What the entries say, field by field ----------

  /** What an entry names as its history: the operation before it in its log, or a parent elsewhere. */
  ghost predicate Names(e: Entry, b: Hash) {
    e.backlink == Some(b) || b in e.parents
  }

  /** History is exactly what entries name, and what the entries so named have as theirs. */
  lemma HistoryIsWhatIsNamed(entries: seq<Entry>, e: Entry, m: Hash)
    requires DuplicateFree(entries) && e in entries
    ensures Reaches(Indexed(entries), e.operation, m)
            <==> exists b :: Names(e, b) && (b == m || Reaches(Indexed(entries), b, m))
  {
    var g := Indexed(entries);
    IndexedAt(entries, e);
    if Reaches(g, e.operation, m) {
      var b := ReachesSplit(g, e.operation, m);
      assert Names(e, b);
    }
    if b :| Names(e, b) && (b == m || Reaches(g, b, m)) {
      if b == m { ReachesDirect(g, e.operation, m); } else { ReachesFirst(g, e.operation, b, m); }
    }
  }

  /**
   What a projection does with everything an entry names: what is absent is reported with the
   entry, and an entry that is placed has all of it before itself.
   */
  lemma NamedIsMissingOrEarlier(entries: seq<Entry>, p: Projection, e: Entry, b: Hash)
    requires ProjectsTo(entries, Ok(p)) && e in entries && Names(e, b)
    ensures Reaches(Indexed(entries), e.operation, b)
    ensures (forall f :: f in entries ==> f.operation != b) ==>
              exists k :: 0 <= k < |p.pending| && p.pending[k].operation == e.operation && b in p.pending[k].missing
    ensures forall i :: 0 <= i < |p.order| && entries[p.order[i]] == e ==>
              exists j :: 0 <= j < i && entries[p.order[j]].operation == b
  {
    var g := Indexed(entries);
    IndexedAt(entries, e);
    ReachesDirect(g, e.operation, b);
    PendingNamesWhatIsMissing(entries, p, e.operation);
    if forall f :: f in entries ==> f.operation != b {
      assert b !in g;
      var k :| 0 <= k < |p.pending| && p.pending[k].operation == e.operation;
      assert b in p.pending[k].missing;
    }
    forall i | 0 <= i < |p.order| && entries[p.order[i]] == e
      ensures exists j :: 0 <= j < i && entries[p.order[j]].operation == b
    {
      var j := HappensBeforeIsPrecedence(entries, p, i, b);
      assert entries[p.order[j]].operation == Operations(entries, p.order)[j];
    }
  }

  lemma PlacedIsListed(entries: seq<Entry>, order: seq<nat>, e: Entry)
    requires forall k :: 0 <= k < |order| ==> order[k] < |entries|
    requires DuplicateFree(entries) && e in entries
    ensures (exists i :: 0 <= i < |order| && entries[order[i]] == e)
            <==> e.operation in Elements(Operations(entries, order))
  {
    var placed := Operations(entries, order);
    if e.operation in placed {
      var i :| 0 <= i < |placed| && placed[i] == e.operation;
      IndexedAt(entries, entries[order[i]]);
      IndexedAt(entries, e);
    }
    if i :| 0 <= i < |order| && entries[order[i]] == e { assert placed[i] == e.operation; }
  }

  lemma PendingIsIncomplete(entries: seq<Entry>, p: Projection, h: Hash)
    requires ProjectsTo(entries, Ok(p))
    ensures (exists k :: 0 <= k < |p.pending| && p.pending[k].operation == h)
            <==> h in Indexed(entries).Keys - Complete(Indexed(entries))
  {
    var g := Indexed(entries);
    PendingAre(g, KeySorted(g, g.Keys - Complete(g)), h);
  }

  /** Every entry is placed or pending, and none is both. */
  lemma PlacedOrPending(entries: seq<Entry>, p: Projection, e: Entry)
    requires ProjectsTo(entries, Ok(p)) && e in entries
    ensures (exists i :: 0 <= i < |p.order| && entries[p.order[i]] == e)
            <==> !exists k :: 0 <= k < |p.pending| && p.pending[k].operation == e.operation
  {
    IndexedAt(entries, e);
    PlacedIsListed(entries, p.order, e);
    PendingIsIncomplete(entries, p, e.operation);
  }

  /** Lexicographic order of two lists of numbers. */
  ghost predicate LexLess(a: seq<nat>, b: seq<nat>) {
    exists k :: 0 <= k < |a| && k < |b| && a[..k] == b[..k] && a[k] < b[k]
  }

  /** The order key is the lexicographic one of author, log, sequence number and id. */
  lemma KeyIsLexicographic(a: Entry, b: Entry)
    ensures KeyLess(a, b)
            <==> LexLess([a.author, a.logId, a.seqNum, a.operation], [b.author, b.logId, b.seqNum, b.operation])
  {
    var x, y := [a.author, a.logId, a.seqNum, a.operation], [b.author, b.logId, b.seqNum, b.operation];
    if KeyLess(a, b) {
      var k := if a.author < b.author then 0 else if a.logId < b.logId then 1 else if a.seqNum < b.seqNum then 2 else 3;
      assert x[..k] == y[..k] && x[k] < y[k];
    }
    if k :| 0 <= k < |x| && k < |y| && x[..k] == y[..k] && x[k] < y[k] {
      assert forall i :: 0 <= i < k ==> x[i] == x[..k][i] == y[..k][i] == y[i];
      assert k > 0 ==> x[0] == y[0];
      assert k > 1 ==> x[1] == y[1];
      assert k > 2 ==> x[2] == y[2];
    }
  }
}

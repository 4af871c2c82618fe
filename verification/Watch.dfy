/**
 Standing subscriptions of crates/servitor/src/watch.rs: what wakes a watch, how a drain moves
 its cursor, and that every qualifying entry is delivered exactly once however the journal is
 cut into drains.
 */
module Watch {
  import StableSort

  type Subject = nat
  type ScopePath = seq<string>

  /** One committed entry. */
  datatype Entry = Entry(seqNo: nat, author: string, scopes: seq<ScopePath>)

  datatype Watch = Watch(subject: Subject, scope: ScopePath, selfAuthor: string, cursor: nat)

  datatype Wake = Wake(subject: Subject, matched: seq<nat>)

  /** Touches what the watch covers and is not its own. */
  predicate Concerns(w: Watch, e: Entry) {
    e.author != w.selfAuthor && exists i :: 0 <= i < |e.scopes| && w.scope <= e.scopes[i]
  }

  predicate Matches(w: Watch, e: Entry) {
    e.seqNo > w.cursor && Concerns(w, e)
  }

  /** The positions that wake the watch, in journal order. */
  function Matched(w: Watch, events: seq<Entry>): seq<nat> {
    if events == [] then []
    else (if Matches(w, events[0]) then [events[0].seqNo] else []) + Matched(w, events[1..])
  }

  function Highest(events: seq<Entry>): nat
    requires events != []
  {
    if |events| == 1 then events[0].seqNo
    else
      var rest := Highest(events[1..]);
      if events[0].seqNo >= rest then events[0].seqNo else rest
  }

  /** The watch past everything considered, matched or not. */
  function Advanced(w: Watch, events: seq<Entry>): Watch {
    if events == [] then w
    else if Highest(events) > w.cursor then w.(cursor := Highest(events)) else w
  }

  lemma {:induction false} HighestIsHighest(events: seq<Entry>)
    requires events != []
    ensures forall e :: e in events ==> e.seqNo <= Highest(events)
    ensures exists e :: e in events && e.seqNo == Highest(events)
  {
    if |events| > 1 {
      HighestIsHighest(events[1..]);
      assert forall e :: e in events ==> e == events[0] || e in events[1..];
      assert events[0] in events;
    } else {
      assert events[0] in events;
    }
  }

  /** Past the cursor, written by another, and touching a scope that lies in the watched one. */
  ghost predicate Qualifies(w: Watch, e: Entry) {
    && e.seqNo > w.cursor && e.author != w.selfAuthor
    && exists scope :: scope in e.scopes && |w.scope| <= |scope| && scope[..|w.scope|] == w.scope
  }

  lemma QualifiesIff(w: Watch, e: Entry)
    ensures Matches(w, e) <==> Qualifies(w, e)
  {
    if Concerns(w, e) {
      var i :| 0 <= i < |e.scopes| && w.scope <= e.scopes[i];
      assert e.scopes[i] in e.scopes;
    }
  }

  lemma {:induction false} MatchedExactly(w: Watch, events: seq<Entry>, n: nat)
    ensures n in Matched(w, events) <==> exists e :: e in events && Qualifies(w, e) && e.seqNo == n
  {
    if events != [] {
      assert Matches(w, events[0]) <==> Qualifies(w, events[0]) by { QualifiesIff(w, events[0]); }
      MatchedExactly(w, events[1..], n);
      assert forall e :: e in events <==> e == events[0] || e in events[1..];
    }
  }

  /** Once advanced past some entries, a watch is never woken by any of them again. */
  lemma AdvancedIsPast(w: Watch, events: seq<Entry>, e: Entry)
    requires e in events
    ensures e.seqNo <= Advanced(w, events).cursor && !Matches(Advanced(w, events), e)
  {
    HighestIsHighest(events);
  }

  // ---------- Exactly-once delivery ----------

  ghost predicate Increasing(events: seq<Entry>) {
    forall i, j :: 0 <= i < j < |events| ==> events[i].seqNo < events[j].seqNo
  }

  function Flatten(drains: seq<seq<Entry>>): seq<Entry> {
    if drains == [] then [] else drains[0] + Flatten(drains[1..])
  }

  /** What the watch is told over successive drains. */
  function Delivered(w: Watch, drains: seq<seq<Entry>>): seq<nat>
    decreases |drains|
  {
    if drains == [] then [] else Matched(w, drains[0]) + Delivered(Advanced(w, drains[0]), drains[1..])
  }

  lemma MatchedAppend(w: Watch, a: seq<Entry>, b: seq<Entry>)
    ensures Matched(w, a + b) == Matched(w, a) + Matched(w, b)
  {
    if a == [] {
      assert a + b == b;
    } else {
      assert (a + b)[1..] == a[1..] + b;
      MatchedAppend(w, a[1..], b);
    }
  }

  ghost predicate Precedes(drain: seq<Entry>, later: seq<Entry>) {
    forall e, f :: e in drain && f in later ==> e.seqNo < f.seqNo
  }

  /** Entries later than a drain match the advanced watch exactly when they matched before. */
  lemma {:induction false} MatchedLater(w: Watch, drain: seq<Entry>, later: seq<Entry>)
    requires Precedes(drain, later)
    ensures Matched(Advanced(w, drain), later) == Matched(w, later)
  {
    if drain != [] && later != [] {
      HighestIsHighest(drain);
      assert later[0] in later;
      assert forall f :: f in later[1..] ==> f in later;
      MatchedLater(w, drain, later[1..]);
    }
  }

  /**
   However a journal of increasing positions is cut into drains, the watch is told exactly the
   entries past its starting cursor that concern it, each once and in order.
   */
  lemma {:induction false} DeliveredExactlyOnce(w: Watch, drains: seq<seq<Entry>>)
    requires Increasing(Flatten(drains))
    ensures Delivered(w, drains) == Matched(w, Flatten(drains))
    decreases |drains|
  {
    if drains != [] {
      var first, rest := drains[0], Flatten(drains[1..]);
      JournalSplits(first, rest);
      DeliveredExactlyOnce(Advanced(w, first), drains[1..]);
      MatchedLater(w, first, rest);
      MatchedAppend(w, first, rest);
    }
  }

  /** And of an increasing journal no position is reported twice: the reports are in increasing order. */
  lemma {:induction false} MatchedIncreasing(w: Watch, events: seq<Entry>)
    requires Increasing(events)
    ensures forall i, j :: 0 <= i < j < |Matched(w, events)| ==> Matched(w, events)[i] < Matched(w, events)[j]
  {
    if events != [] {
      assert Increasing(events[1..]) by {
        assert forall i :: 0 <= i < |events[1..]| ==> events[1..][i] == events[i + 1];
      }
      MatchedIncreasing(w, events[1..]);
      forall n | n in Matched(w, events[1..]) ensures events[0].seqNo < n {
        MatchedExactly(w, events[1..], n);
        var e :| e in events[1..] && Matches(w, e) && e.seqNo == n;
        var k :| 0 <= k < |events[1..]| && events[1..][k] == e;
        assert events[k + 1] == e;
      }
      var m := Matched(w, events[1..]);
      assert forall i :: 0 <= i < |m| ==> m[i] in m;
    }
  }

  // ---------- The table ----------

  function AdvanceAll(ws: seq<Watch>, events: seq<Entry>): seq<Watch> {
    seq(|ws|, i requires 0 <= i < |ws| => Advanced(ws[i], events))
  }

  /** The wakes of the watches in registration order. */
  function WakesOf(ws: seq<Watch>, events: seq<Entry>): seq<Wake> {
    if ws == [] then []
    else WakeOf(ws[0], events) + WakesOf(ws[1..], events)
  }

  /** One pass over the watches: report each that matches, and move its cursor. */
  method AdvanceEach(ws: seq<Watch>, events: seq<Entry>) returns (next: seq<Watch>, reported: seq<Wake>)
    ensures next == AdvanceAll(ws, events) && reported == WakesOf(ws, events)
  {
    next, reported := [], [];
    for i := 0 to |ws|
      invariant |next| == i && forall k :: 0 <= k < i ==> next[k] == Advanced(ws[k], events)
      invariant reported + WakesOf(ws[i..], events) == WakesOf(ws, events)
    {
      var matched := Matched(ws[i], events);
      ReportNext(reported, ws, i, events);
      if matched != [] {
        reported := reported + [Wake(ws[i].subject, Sorted(matched))];
      }
      next := next + [Advanced(ws[i], events)];
    }
    assert ws[|ws|..] == [] && reported + [] == reported;
  }

  function WakeOf(w: Watch, events: seq<Entry>): seq<Wake> {
    var m := Matched(w, events);
    if m == [] then [] else [Wake(w.subject, Sorted(m))]
  }

  lemma ReportNext(reported: seq<Wake>, ws: seq<Watch>, i: nat, events: seq<Entry>)
    requires i < |ws|
    ensures (reported + WakeOf(ws[i], events)) + WakesOf(ws[i + 1..], events) == reported + WakesOf(ws[i..], events)
    ensures WakeOf(ws[i], events) == [] ==> reported + WakeOf(ws[i], events) == reported
  {
    assert ws[i..][0] == ws[i] && ws[i..][1..] == ws[i + 1..];
    var here, rest := WakeOf(ws[i], events), WakesOf(ws[i + 1..], events);
    assert (reported + here) + rest == reported + (here + rest);
  }

  const ASCENDING: (nat, nat) -> bool := (a: nat, b: nat) => a <= b

  /** The positions of one report, in ascending order. */
  function Sorted(s: seq<nat>): seq<nat> {
    StableSort.Sort(ASCENDING, s)
  }

  /** Whatever the journal, a report is in ascending order and holds exactly the matches. */
  lemma ReportAscends(w: Watch, events: seq<Entry>, k: nat)
    requires k < |WakeOf(w, events)|
    ensures var wake := WakeOf(w, events)[k];
            && wake.subject == w.subject && multiset(wake.matched) == multiset(Matched(w, events))
            && forall i, j :: 0 <= i < j < |wake.matched| ==> wake.matched[i] <= wake.matched[j]
  {
    StableSort.SortAdds(ASCENDING, Matched(w, events));
    StableSort.SortOrders(ASCENDING, Matched(w, events));
    var m := WakeOf(w, events)[k].matched;
    forall i, j | 0 <= i < j < |m| ensures m[i] <= m[j] { assert ASCENDING(m[i], m[j]); }
  }

  /** Over an increasing drain the sort finds nothing to do: a report is the matches themselves. */
  lemma ReportIsMatched(w: Watch, events: seq<Entry>)
    requires Increasing(events)
    ensures WakeOf(w, events) == if Matched(w, events) == [] then [] else [Wake(w.subject, Matched(w, events))]
  {
    MatchedIncreasing(w, events);
    StableSort.SortOfOrdered(ASCENDING, Matched(w, events));
  }

  const BY_SUBJECT: (Wake, Wake) -> bool := (a: Wake, b: Wake) => a.subject <= b.subject

  /** The stable order by subject key in which bodies run. */
  function BySubject(ws: seq<Wake>): seq<Wake> {
    StableSort.Sort(BY_SUBJECT, ws)
  }

  lemma BySubjectKeeps(ws: seq<Wake>)
    ensures multiset(BySubject(ws)) == multiset(ws) && StableSort.InOrder(BY_SUBJECT, BySubject(ws))
  {
    StableSort.SortAdds(BY_SUBJECT, ws);
    StableSort.SortOrders(BY_SUBJECT, ws);
  }

  function WakesIn(ws: seq<Watch>, events: seq<Entry>): seq<Wake> {
    BySubject(WakesOf(ws, events))
  }

  /** The subjects some of whose watches these entries would wake. */
  ghost function Woken(ws: seq<Watch>, events: seq<Entry>): set<Subject> {
    set i, j | 0 <= i < |ws| && 0 <= j < |events| && Matches(ws[i], events[j]) :: ws[i].subject
  }

  lemma {:induction false} WatchHasWake(ws: seq<Watch>, events: seq<Entry>, i: nat) returns (k: nat)
    requires i < |ws| && Matched(ws[i], events) != []
    ensures k < |WakesOf(ws, events)| && WakesOf(ws, events)[k].subject == ws[i].subject
  {
    if i == 0 {
      k := 0;
    } else {
      k := WatchHasWake(ws[1..], events, i - 1);
      if Matched(ws[0], events) != [] { k := k + 1; }
    }
  }

  lemma {:induction false} WakeHasWatch(ws: seq<Watch>, events: seq<Entry>, k: nat) returns (i: nat)
    requires k < |WakesOf(ws, events)|
    ensures i < |ws| && ws[i].subject == WakesOf(ws, events)[k].subject && Matched(ws[i], events) != []
  {
    var here, rest := WakeOf(ws[0], events), WakesOf(ws[1..], events);
    assert WakesOf(ws, events) == here + rest;
    if k < |here| {
      i := 0;
    } else {
      i := WakeHasWatch(ws[1..], events, k - |here|);
      assert (here + rest)[k] == rest[k - |here|];
      i := i + 1;
    }
  }

  lemma WakesOfNames(ws: seq<Watch>, events: seq<Entry>, s: Subject)
    ensures (exists k :: 0 <= k < |WakesOf(ws, events)| && WakesOf(ws, events)[k].subject == s)
            <==> exists i :: 0 <= i < |ws| && ws[i].subject == s && Matched(ws[i], events) != []
  {
    if i :| 0 <= i < |ws| && ws[i].subject == s && Matched(ws[i], events) != [] {
      var k := WatchHasWake(ws, events, i);
    }
    if k :| 0 <= k < |WakesOf(ws, events)| && WakesOf(ws, events)[k].subject == s {
      var i := WakeHasWatch(ws, events, k);
    }
  }

  /** The subjects a drain wakes are exactly those with a watch some entry matches. */
  lemma WakesNameTheWoken(ws: seq<Watch>, events: seq<Entry>)
    ensures (set w | w in WakesIn(ws, events) :: w.subject) == Woken(ws, events)
  {
    BySubjectKeeps(WakesOf(ws, events));
    var wakes := WakesIn(ws, events);
    forall s ensures s in (set w | w in wakes :: w.subject) <==> s in Woken(ws, events) {
      WakesOfNames(ws, events, s);
      assert forall w :: w in wakes <==> w in WakesOf(ws, events) by {
        assert forall w :: w in wakes <==> w in multiset(wakes);
        assert forall w :: w in WakesOf(ws, events) <==> w in multiset(WakesOf(ws, events));
      }
      forall i | 0 <= i < |ws|
        ensures Matched(ws[i], events) != [] <==> exists j :: 0 <= j < |events| && Matches(ws[i], events[j])
      {
        MatchedSome(ws[i], events);
      }
    }
  }

  lemma {:induction false} MatchedSome(w: Watch, events: seq<Entry>)
    ensures Matched(w, events) != [] <==> exists j :: 0 <= j < |events| && Matches(w, events[j])
  {
    if events != [] {
      MatchedSome(w, events[1..]);
      assert forall j :: 0 <= j < |events[1..]| ==> events[1..][j] == events[j + 1];
      if j :| 0 <= j < |events| && Matches(w, events[j]) {
        if j > 0 { assert Matches(w, events[1..][j - 1]); }
      }
    }
  }

  // ---------- Exactly-once delivery by the whole table ----------

  function For(s: Subject): Wake -> bool {
    (w: Wake) => w.subject == s
  }

  /** The wakes of one subject's watches, in registration order. */
  function WakesFor(ws: seq<Watch>, events: seq<Entry>, s: Subject): seq<Wake> {
    if ws == [] then []
    else (if ws[0].subject == s then WakeOf(ws[0], events) else []) + WakesFor(ws[1..], events, s)
  }

  lemma {:induction false} PickedInOrder(ws: seq<Watch>, events: seq<Entry>, s: Subject)
    ensures StableSort.Pick(WakesOf(ws, events), For(s)) == WakesFor(ws, events, s)
  {
    if ws != [] {
      PickedInOrder(ws[1..], events, s);
      StableSort.PickAppend(WakeOf(ws[0], events), WakesOf(ws[1..], events), For(s));
      var here := WakeOf(ws[0], events);
      if here != [] { assert here[1..] == []; }
    }
  }

  /** A drain tells one subject, in registration order, what each of its watches matched. */
  lemma WakesOfSubject(ws: seq<Watch>, events: seq<Entry>, s: Subject)
    ensures StableSort.Pick(WakesIn(ws, events), For(s)) == WakesFor(ws, events, s)
  {
    StableSort.SortIsStable(BY_SUBJECT, WakesOf(ws, events), For(s));
    PickedInOrder(ws, events, s);
  }

  function Positions(wakes: seq<Wake>): multiset<nat> {
    if wakes == [] then multiset{} else multiset(wakes[0].matched) + Positions(wakes[1..])
  }

  /** Everything the table tells one subject over successive drains. */
  function Told(ws: seq<Watch>, drains: seq<seq<Entry>>, s: Subject): multiset<nat>
    decreases |drains|
  {
    if drains == [] then multiset{}
    else Positions(StableSort.Pick(WakesIn(ws, drains[0]), For(s))) + Told(AdvanceAll(ws, drains[0]), drains[1..], s)
  }

  /** What is due to a subject from a journal: the matches of each of its watches. */
  function Due(ws: seq<Watch>, journal: seq<Entry>, s: Subject): multiset<nat> {
    if ws == [] then multiset{}
    else DueTo(ws[0], journal, s) + Due(ws[1..], journal, s)
  }

  function DueTo(w: Watch, journal: seq<Entry>, s: Subject): multiset<nat> {
    if w.subject == s then multiset(Matched(w, journal)) else multiset{}
  }

  lemma PositionsOfOne(w: Watch, events: seq<Entry>, rest: seq<Wake>)
    ensures Positions(WakeOf(w, events) + rest) == multiset(Matched(w, events)) + Positions(rest)
  {
    var here := WakeOf(w, events);
    if here == [] {
      assert here + rest == rest;
    } else {
      StableSort.SortAdds(ASCENDING, Matched(w, events));
      assert (here + rest)[1..] == rest && (here + rest)[0] == here[0];
    }
  }

  lemma {:induction false} PositionsAreDue(ws: seq<Watch>, events: seq<Entry>, s: Subject)
    ensures Positions(WakesFor(ws, events, s)) == Due(ws, events, s)
  {
    if ws != [] {
      var rest := WakesFor(ws[1..], events, s);
      PositionsAreDue(ws[1..], events, s);
      if ws[0].subject == s {
        PositionsOfOne(ws[0], events, rest);
        assert WakesFor(ws, events, s) == WakeOf(ws[0], events) + rest;
      } else {
        assert WakesFor(ws, events, s) == rest;
        assert DueTo(ws[0], events, s) == multiset{};
      }
    }
  }

  /** What is due from a drain and then from later entries is what is due from both at once. */
  lemma {:induction false} DueSplits(ws: seq<Watch>, drain: seq<Entry>, later: seq<Entry>, s: Subject)
    requires Precedes(drain, later)
    ensures Due(ws, drain + later, s) == Due(ws, drain, s) + Due(AdvanceAll(ws, drain), later, s)
  {
    if ws != [] {
      DueSplits(ws[1..], drain, later, s);
      DueSplitsOne(ws[0], drain, later, s);
      var next := AdvanceAll(ws, drain);
      assert next[1..] == AdvanceAll(ws[1..], drain);
      Regroup(DueTo(ws[0], drain, s), DueTo(next[0], later, s), Due(ws[1..], drain, s), Due(next[1..], later, s));
    }
  }

  lemma DueSplitsOne(w: Watch, drain: seq<Entry>, later: seq<Entry>, s: Subject)
    requires Precedes(drain, later)
    ensures DueTo(w, drain + later, s) == DueTo(w, drain, s) + DueTo(Advanced(w, drain), later, s)
  {
    MatchedAppend(w, drain, later);
    MatchedLater(w, drain, later);
  }

  lemma Regroup(a: multiset<nat>, b: multiset<nat>, c: multiset<nat>, d: multiset<nat>)
    ensures (a + b) + (c + d) == (a + c) + (b + d)
  {
  }

  lemma JournalSplits(first: seq<Entry>, rest: seq<Entry>)
    requires Increasing(first + rest)
    ensures Increasing(rest) && Precedes(first, rest)
  {
    assert forall i :: 0 <= i < |rest| ==> rest[i] == (first + rest)[|first| + i];
    forall e, f | e in first && f in rest ensures e.seqNo < f.seqNo {
      var i :| 0 <= i < |first| && first[i] == e;
      var j :| 0 <= j < |rest| && rest[j] == f;
      assert (first + rest)[i] == e && (first + rest)[|first| + j] == f;
    }
  }

  /**
   The whole table delivers exactly once: however an increasing journal is cut into drains, what a
   subject is told over all of them, sorted and grouped as the drains report it, is exactly what
   its watches were due from the whole journal, each position once per watch it concerns.
   */
  lemma {:induction false} TableDeliversExactlyOnce(ws: seq<Watch>, drains: seq<seq<Entry>>, s: Subject)
    requires Increasing(Flatten(drains))
    ensures Told(ws, drains, s) == Due(ws, Flatten(drains), s)
    decreases |drains|
  {
    if drains == [] {
      NothingDue(ws, s);
    } else {
      var first, rest := drains[0], Flatten(drains[1..]);
      JournalSplits(first, rest);
      WakesOfSubject(ws, first, s);
      PositionsAreDue(ws, first, s);
      DueSplits(ws, first, rest, s);
      TableDeliversExactlyOnce(AdvanceAll(ws, first), drains[1..], s);
    }
  }

  lemma {:induction false} NothingDue(ws: seq<Watch>, s: Subject)
    ensures Due(ws, [], s) == multiset{}
  {
    if ws != [] { NothingDue(ws[1..], s); }
  }
}

/**
 The watch table a host keeps (crates/servitor/src/watch.rs) and the bounded cascade over it
 (crates/servitor/src/cascade.rs). The runner is any function of the round and its wakes: what a
 stateful runner returns in one run is such a function.
 */
module Cascade {
  import opened Capability
  import opened Watch
  import StableSort

  type Covers = (Subject, Cap, Mode) -> bool

  class WatchTable {
    var watches: seq<Watch>

    constructor ()
      ensures watches == []
    {
      watches := [];
    }

    /** Accept a watch only over what its subject may already read. */
    method Register(covers: Covers, subject: Subject, scope: ScopePath, selfAuthor: string) returns (ok: bool)
      modifies this
      ensures ok <==> covers(subject, Scope(scope), Read)
      ensures watches == if ok then old(watches) + [Watch(subject, scope, selfAuthor, 0)] else old(watches)
    {
      ok := covers(subject, Scope(scope), Read);
      if ok {
        watches := watches + [Watch(subject, scope, selfAuthor, 0)];
      }
    }

    /** Drop every watch of a subject, keeping the others in order. */
    method RemoveSubject(subject: Subject)
      modifies this
      ensures watches == OfOthers(old(watches), subject)
    {
      var kept: seq<Watch> := [];
      for i := 0 to |watches|
        invariant watches == old(watches)
        invariant kept + OfOthers(watches[i..], subject) == OfOthers(watches, subject)
      {
        assert watches[i..][1..] == watches[i + 1..];
        if watches[i].subject != subject { kept := kept + [watches[i]]; }
      }
      assert watches[|watches|..] == [];
      watches := kept;
    }

    /** Consider entries, advance every cursor past them, and report who wakes, in subject order. */
    method WakeAll(events: seq<Entry>) returns (wakes: seq<Wake>)
      modifies this
      ensures watches == AdvanceAll(old(watches), events)
      ensures wakes == WakesIn(old(watches), events)
    {
      var next, reported := AdvanceEach(watches, events);
      watches := next;
      wakes := BySubject(reported);
    }

    /** Who these entries would wake; nothing is consumed. */
    method WouldWake(events: seq<Entry>) returns (subjects: set<Subject>)
      ensures subjects == Woken(watches, events)
    {
      subjects := {};
      for i := 0 to |watches|
        invariant forall s :: s in subjects <==>
                    exists k, j :: 0 <= k < i && 0 <= j < |events| && Matches(watches[k], events[j])
                        && watches[k].subject == s
      {
        var matched := Matched(watches[i], events);
        MatchedSome(watches[i], events);
        if matched != [] { subjects := subjects + {watches[i].subject}; }
      }
    }
  }

  function OfOthers(ws: seq<Watch>, subject: Subject): seq<Watch> {
    if ws == [] then [] else (if ws[0].subject != subject then [ws[0]] else []) + OfOthers(ws[1..], subject)
  }

  lemma {:induction false} OthersWakesStay(ws: seq<Watch>, events: seq<Entry>, subject: Subject, s: Subject)
    ensures WakesFor(OfOthers(ws, subject), events, s) == if s == subject then [] else WakesFor(ws, events, s)
  {
    if ws != [] {
      OthersWakesStay(ws[1..], events, subject, s);
      var rest := OfOthers(ws[1..], subject);
      if ws[0].subject != subject {
        assert ([ws[0]] + rest)[1..] == rest && ([ws[0]] + rest)[0] == ws[0];
      } else {
        assert [] + rest == rest;
      }
    }
  }

  /** A removed subject is never woken again, and every other is told exactly what it would have been. */
  lemma RemovalSilences(ws: seq<Watch>, events: seq<Entry>, subject: Subject, s: Subject)
    ensures StableSort.Pick(WakesIn(OfOthers(ws, subject), events), For(s))
            == if s == subject then [] else StableSort.Pick(WakesIn(ws, events), For(s))
  {
    WakesOfSubject(OfOthers(ws, subject), events, s);
    WakesOfSubject(ws, events, s);
    OthersWakesStay(ws, events, subject, s);
  }

  /** The watches of the others are all still there, and in their order. */
  lemma {:induction false} OthersStay(ws: seq<Watch>, subject: Subject, kept: Watch -> bool)
    requires forall w :: kept(w) ==> w.subject != subject
    ensures StableSort.Pick(OfOthers(ws, subject), kept) == StableSort.Pick(ws, kept)
    ensures forall w :: w in OfOthers(ws, subject) ==> w.subject != subject
  {
    if ws != [] {
      OthersStay(ws[1..], subject, kept);
      var rest := OfOthers(ws[1..], subject);
      if ws[0].subject != subject {
        assert ([ws[0]] + rest)[1..] == rest && ([ws[0]] + rest)[0] == ws[0];
      } else {
        assert [] + rest == rest && !kept(ws[0]);
      }
    }
  }

  // ---------- The cascade ----------

  datatype Outcome = Settled | BudgetExhausted(stillWaking: set<Subject>)

  type Runner = (nat, seq<Wake>) -> seq<Entry>

  /** A budget of at least one round, which is what the constructor clamps to. */
  type Budget = b: nat | b >= 1 witness 1

  /** What one round saw: the watches before it and the entries it considered. */
  datatype Turn = Turn(watches: seq<Watch>, pending: seq<Entry>)

  /**
   The rounds of a cascade as they happened: each considers the entries the previous one
   produced, over watches the previous one advanced, and woke somebody.
   */
  ghost predicate Rounds(start: seq<Watch>, entries: seq<Entry>, run: Runner, turns: seq<Turn>,
                         watches: seq<Watch>, pending: seq<Entry>)
  {
    if turns == [] then watches == start && pending == entries
    else
      var last := turns[|turns| - 1];
      var wakes := WakesIn(last.watches, last.pending);
      && Rounds(start, entries, run, turns[..|turns| - 1], last.watches, last.pending)
      && wakes != []
      && watches == AdvanceAll(last.watches, last.pending)
      && pending == run(|turns| - 1, wakes)
  }

  ghost predicate Quiet(watches: seq<Watch>, events: seq<Entry>) {
    forall i, j :: 0 <= i < |watches| && 0 <= j < |events| ==> !Matches(watches[i], events[j])
  }

  lemma QuietIffNobodyWoken(watches: seq<Watch>, events: seq<Entry>)
    ensures Quiet(watches, events) <==> Woken(watches, events) == {}
    ensures Quiet(watches, events) <==> WakesIn(watches, events) == []
  {
    WakesNameTheWoken(watches, events);
    var wakes := WakesIn(watches, events);
    var subjects := set w | w in wakes :: w.subject;
    assert subjects == Woken(watches, events);
    assert wakes != [] ==> wakes[0] in wakes && wakes[0].subject in subjects;
    assert wakes == [] ==> subjects == {};
    forall i, j | 0 <= i < |watches| && 0 <= j < |events| && Matches(watches[i], events[j])
      ensures watches[i].subject in Woken(watches, events)
    {
    }
  }

  /** Every cursor has moved past all of these entries. */
  ghost predicate PastAll(watches: seq<Watch>, events: seq<Entry>) {
    forall i, j :: 0 <= i < |watches| && 0 <= j < |events| ==> events[j].seqNo <= watches[i].cursor
  }

  lemma AdvanceReachesPast(watches: seq<Watch>, events: seq<Entry>)
    ensures PastAll(AdvanceAll(watches, events), events)
  {
    forall i, j | 0 <= i < |watches| && 0 <= j < |events|
      ensures events[j].seqNo <= AdvanceAll(watches, events)[i].cursor
    {
      AdvancedIsPast(watches[i], events, events[j]);
    }
  }

  lemma AdvanceKeepsPast(watches: seq<Watch>, events: seq<Entry>, more: seq<Entry>)
    requires PastAll(watches, events)
    ensures PastAll(AdvanceAll(watches, more), events)
  {
  }

  /**
   Run to settlement or to the budget, for any runner. At most `budget` rounds run, each waking
   somebody, over the entries the runner returned for the round before; settling means that what
   is left after the last round matches no watch, and it has been drained unless the budget was
   spent; exhaustion names exactly the subjects the next drain of what is left will wake, and
   leaves the cursors for that drain; every cursor ends past the entries that started the cascade,
   and over entries already passed no round runs, so repeating a cascade does nothing.
   */
  method RunCascade(table: WatchTable, budget: Budget, entries: seq<Entry>, run: Runner)
    returns (rounds: seq<seq<Wake>>, outcome: Outcome, ghost turns: seq<Turn>, ghost leftover: seq<Entry>)
    modifies table
    ensures |rounds| == |turns| <= budget
    ensures forall k :: 0 <= k < |turns| ==> rounds[k] == WakesIn(turns[k].watches, turns[k].pending) && rounds[k] != []
    ensures outcome.Settled? ==>
              exists before ::
                && Rounds(old(table.watches), entries, run, turns, before, leftover)
                && Quiet(before, leftover)
                && table.watches == if |turns| < budget then AdvanceAll(before, leftover) else before
    ensures outcome.BudgetExhausted? ==>
              && |rounds| == budget
              && outcome.stillWaking == Woken(table.watches, leftover) != {}
              && Rounds(old(table.watches), entries, run, turns, table.watches, leftover)
    ensures PastAll(table.watches, entries)
    ensures PastAll(old(table.watches), entries) ==> rounds == [] && outcome == Settled
  {
    rounds, turns := [], [];
    var pending := entries;
    ghost var start := table.watches;
    for n := 0 to budget
      invariant |rounds| == |turns| == n
      invariant Rounds(start, entries, run, turns, table.watches, pending)
      invariant forall k :: 0 <= k < n ==> rounds[k] == WakesIn(turns[k].watches, turns[k].pending) && rounds[k] != []
      invariant n > 0 ==> PastAll(table.watches, entries) && !Quiet(start, entries)
      invariant n == 0 ==> pending == entries && table.watches == start
    {
      ghost var before := table.watches;
      if n == 0 { AdvanceReachesPast(before, entries); } else { AdvanceKeepsPast(before, entries, pending); }
      QuietIffNobodyWoken(before, pending);
      var wakes := table.WakeAll(pending);
      if wakes == [] {
        leftover := pending;
        return rounds, Settled, turns, leftover;
      }
      turns := turns + [Turn(before, pending)];
      assert turns[..n] == turns[..|turns| - 1];
      assert turns[..|turns| - 1] + [Turn(before, pending)] == turns;
      rounds := rounds + [wakes];
      pending := run(n, wakes);
    }
    leftover := pending;
    var still := table.WouldWake(pending);
    QuietIffNobodyWoken(table.watches, pending);
    outcome := if still == {} then Settled else BudgetExhausted(still);
  }

  // ---------- What follows for every cascade ----------

  lemma {:induction false} CursorsRise(start: seq<Watch>, entries: seq<Entry>, run: Runner, turns: seq<Turn>,
                                       watches: seq<Watch>, pending: seq<Entry>, k: nat, i: nat)
    requires Rounds(start, entries, run, turns, watches, pending) && k < |turns| && i < |start|
    ensures |watches| == |turns[k].watches| == |start|
    ensures Advanced(turns[k].watches[i], turns[k].pending).cursor <= watches[i].cursor
    decreases |turns|
  {
    var last := turns[|turns| - 1];
    SameLength(start, entries, run, turns, watches, pending);
    SameLength(start, entries, run, turns[..|turns| - 1], last.watches, last.pending);
    if k < |turns| - 1 {
      CursorsRise(start, entries, run, turns[..|turns| - 1], last.watches, last.pending, k, i);
    }
  }

  lemma {:induction false} SameLength(start: seq<Watch>, entries: seq<Entry>, run: Runner, turns: seq<Turn>,
                                      watches: seq<Watch>, pending: seq<Entry>)
    requires Rounds(start, entries, run, turns, watches, pending)
    ensures |watches| == |start|
    decreases |turns|
  {
    if turns != [] {
      var last := turns[|turns| - 1];
      SameLength(start, entries, run, turns[..|turns| - 1], last.watches, last.pending);
    }
  }

  /**
   A cascade never wakes a watch twice for one position: whatever wakes a watch in a later round
   lies strictly past everything that was even considered in an earlier one.
   */
  lemma {:induction false} NeverWokenTwice(start: seq<Watch>, entries: seq<Entry>, run: Runner, turns: seq<Turn>,
                                           watches: seq<Watch>, pending: seq<Entry>, k: nat, l: nat, i: nat, n: nat,
                                           e: Entry)
    requires Rounds(start, entries, run, turns, watches, pending) && k < l < |turns| && i < |start|
    requires |turns[l].watches| == |start| && n in Matched(turns[l].watches[i], turns[l].pending)
    requires e in turns[k].pending
    ensures e.seqNo < n
    decreases |turns|
  {
    var last := turns[|turns| - 1];
    var shorter := turns[..|turns| - 1];
    if l < |turns| - 1 {
      NeverWokenTwice(start, entries, run, shorter, last.watches, last.pending, k, l, i, n, e);
    } else {
      CursorsRise(start, entries, run, shorter, last.watches, last.pending, k, i);
      MatchedExactly(last.watches[i], last.pending, n);
      AdvancedIsPast(turns[k].watches[i], turns[k].pending, e);
    }
  }
}

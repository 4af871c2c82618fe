/**
 The actuation deadband of crates/servitor/src/deadband.rs: the table of declarations, the check
 and the record that follows a successful commit, and the rate bound they give over whole runs.
 */
module Deadband {
  import opened Wrappers
  import First
  import StableSort

  const MAX_U64: nat := 0xFFFF_FFFF_FFFF_FFFF
  const MAX_I64: int := 0x7FFF_FFFF_FFFF_FFFF

  type U64 = n: nat | n <= MAX_U64
  type I64 = n: int | -MAX_I64 - 1 <= n <= MAX_I64

  type Subject = nat

  /** A declared deadband; both dimensions are positive. */
  datatype BandFields = Band(minimumChange: U64, minimumIntervalMs: U64)

  type Band = b: BandFields | b.minimumChange > 0 && b.minimumIntervalMs > 0 witness Band(1, 1)

  function Declare(minimumChange: U64, minimumIntervalMs: U64): (r: Option<Band>)
    ensures r.Some? <==> minimumChange > 0 && minimumIntervalMs > 0
    ensures r.Some? ==> r.value == Band(minimumChange, minimumIntervalMs)
  {
    if minimumChange == 0 || minimumIntervalMs == 0 then None else Some(Band(minimumChange, minimumIntervalMs))
  }

  datatype Actuation = Actuation(output: I64, atMs: U64)

  datatype Entry = Entry(subject: Subject, band: Band, accepted: Option<Actuation>)

  function Distance(a: int, b: int): nat {
    if a >= b then a - b else b - a
  }

  /** The change between two outputs; the widest pair of 64-bit outputs still fits, so the clamp never bites. */
  function AbsoluteChange(before: I64, after: I64): (r: U64)
    ensures r == Distance(before, after)
  {
    Saturated(Distance(after, before))
  }

  function Saturated(d: nat): U64 {
    if d <= MAX_U64 then d else MAX_U64
  }

  /** Elapsed time; a clock that moved back reads as no time. */
  function Elapsed(before: U64, after: U64): U64 {
    if after >= before then after - before else 0
  }

  datatype Refusal = Refusal(subject: Subject, change: Option<(U64, U64)>, interval: Option<(U64, U64)>)

  datatype Admission = Admission(subject: Subject, band: Option<Band>, actuation: Actuation)

  // ---------- The table as a list ----------

  function Find(entries: seq<Entry>, subject: Subject): (i: nat)
    ensures i <= |entries|
    ensures i < |entries| ==> entries[i].subject == subject
    ensures forall k :: 0 <= k < i ==> entries[k].subject != subject
  {
    First.Where(entries, (e: Entry) => e.subject == subject)
  }

  function Lookup(entries: seq<Entry>, subject: Subject): Option<Entry> {
    var i := Find(entries, subject);
    if i < |entries| then Some(entries[i]) else None
  }

  ghost predicate OnePerSubject(entries: seq<Entry>) {
    forall i, j :: 0 <= i < j < |entries| ==> entries[i].subject != entries[j].subject
  }

  /** The output moved enough and enough time passed since the last accepted one. */
  predicate Clears(band: Band, last: Actuation, next: Actuation) {
    && AbsoluteChange(last.output, next.output) >= band.minimumChange
    && Elapsed(last.atMs, next.atMs) >= band.minimumIntervalMs
  }

  /** Each dimension that falls short, with what was asked and what was there. */
  function RefusedFor(e: Entry, next: Actuation): (r: Refusal)
    requires e.accepted.Some?
    ensures var last := e.accepted.value; var gap: int := next.atMs - last.atMs;
            && r.subject == e.subject
            && (r.change.Some? <==> Distance(last.output, next.output) < e.band.minimumChange)
            && (r.change.Some? ==> r.change.value == (e.band.minimumChange, Distance(last.output, next.output)))
            && (r.interval.Some? <==> gap < e.band.minimumIntervalMs)
            && (r.interval.Some? ==> r.interval.value == (e.band.minimumIntervalMs, if gap > 0 then gap else 0))
  {
    var actual := AbsoluteChange(e.accepted.value.output, next.output);
    var elapsed := Elapsed(e.accepted.value.atMs, next.atMs);
    Refusal(e.subject,
            if actual < e.band.minimumChange then Some((e.band.minimumChange, actual)) else None,
            if elapsed < e.band.minimumIntervalMs then Some((e.band.minimumIntervalMs, elapsed)) else None)
  }

  /** What the table would say, without moving anything. */
  predicate Admits(entries: seq<Entry>, subject: Subject, next: Actuation) {
    var e := Lookup(entries, subject);
    e.Some? && e.value.accepted.Some? ==> Clears(e.value.band, e.value.accepted.value, next)
  }

  function Recorded(entries: seq<Entry>, subject: Subject, next: Actuation): seq<Entry> {
    var i := Find(entries, subject);
    if i < |entries| then entries[i := entries[i].(accepted := Some(next))] else entries
  }

  function Registered(entries: seq<Entry>, subject: Subject, band: Band): seq<Entry> {
    var i := Find(entries, subject);
    if i == |entries| then entries + [Entry(subject, band, None)]
    else if entries[i].band != band then entries[i := Entry(subject, band, None)]
    else entries
  }

  function Dropped(entries: seq<Entry>, subject: Subject): seq<Entry> {
    if entries == [] then []
    else (if entries[0].subject != subject then [entries[0]] else []) + Dropped(entries[1..], subject)
  }

  class DeadbandTable {
    var entries: seq<Entry>

    ghost predicate Valid()
      reads this
    {
      OnePerSubject(entries)
    }

    constructor ()
      ensures Valid() && entries == []
    {
      entries := [];
    }

    /** Declare or replace; the same declaration keeps its baseline, a changed one resets it. */
    method Register(subject: Subject, band: Band)
      requires Valid()
      modifies this
      ensures Valid() && entries == Registered(old(entries), subject, band)
    {
      for i := 0 to |entries|
        invariant entries == old(entries) && forall k :: 0 <= k < i ==> entries[k].subject != subject
      {
        if entries[i].subject == subject {
          FindIs(entries, subject, i);
          if entries[i].band != band {
            entries := entries[i := Entry(subject, band, None)];
          }
          return;
        }
      }
      entries := entries + [Entry(subject, band, None)];
    }

    method RemoveSubject(subject: Subject)
      requires Valid()
      modifies this
      ensures Valid() && entries == Dropped(old(entries), subject)
    {
      var kept: seq<Entry> := [];
      for i := 0 to |entries|
        invariant entries == old(entries)
        invariant kept + Dropped(entries[i..], subject) == Dropped(entries, subject)
      {
        assert entries[i..][1..] == entries[i + 1..];
        if entries[i].subject != subject { kept := kept + [entries[i]]; }
      }
      assert entries[|entries|..] == [] && kept == Dropped(entries, subject);
      entries := kept;
      DroppedIsOnePer(old(entries), subject);
    }

    /** Check without moving the baseline; a refusal names each dimension that failed. */
    method Check(subject: Subject, next: Actuation) returns (r: Result<Admission, Refusal>)
      requires Valid()
      ensures r.Ok? <==> Admits(entries, subject, next)
      ensures r.Ok? ==> r.value == Admission(subject, BandOf(entries, subject), next)
      ensures r.Err? ==> r.error == RefusedFor(entries[Find(entries, subject)], next)
    {
      var i := Find(entries, subject);
      if i == |entries| {
        return Ok(Admission(subject, None, next));
      }
      var e := entries[i];
      if e.accepted.None? {
        return Ok(Admission(subject, Some(e.band), next));
      }
      var actual := AbsoluteChange(e.accepted.value.output, next.output);
      var elapsed := Elapsed(e.accepted.value.atMs, next.atMs);
      var change := if actual < e.band.minimumChange then Some((e.band.minimumChange, actual)) else None;
      var interval := if elapsed < e.band.minimumIntervalMs then Some((e.band.minimumIntervalMs, elapsed)) else None;
      if change.Some? || interval.Some? {
        return Err(Refusal(subject, change, interval));
      }
      r := Ok(Admission(subject, Some(e.band), next));
    }

    /** Move the baseline of an admission whose declaration still stands. */
    method Record(a: Admission)
      requires Valid()
      modifies this
      ensures Valid()
      ensures entries == if a.band.Some? && BandOf(old(entries), a.subject) == a.band
                         then Recorded(old(entries), a.subject, a.actuation) else old(entries)
    {
      if a.band.None? {
        return;
      }
      for i := 0 to |entries|
        invariant entries == old(entries)
        invariant forall k :: 0 <= k < i ==> !(entries[k].subject == a.subject && entries[k].band == a.band.value)
      {
        if entries[i].subject == a.subject && entries[i].band == a.band.value {
          FindOne(entries, i);
          entries := entries[i := entries[i].(accepted := Some(a.actuation))];
          return;
        }
      }
    }
  }

  function BandOf(entries: seq<Entry>, subject: Subject): Option<Band> {
    var e := Lookup(entries, subject);
    if e.Some? then Some(e.value.band) else None
  }

  lemma FindIs(entries: seq<Entry>, subject: Subject, i: nat)
    requires i < |entries| && entries[i].subject == subject && forall k :: 0 <= k < i ==> entries[k].subject != subject
    ensures Find(entries, subject) == i
  {
  }

  lemma FindOne(entries: seq<Entry>, i: nat)
    requires OnePerSubject(entries) && i < |entries|
    ensures Find(entries, entries[i].subject) == i
  {
    FindIs(entries, entries[i].subject, i);
  }

  lemma {:induction false} DroppedIsOnePer(entries: seq<Entry>, subject: Subject)
    requires OnePerSubject(entries)
    ensures OnePerSubject(Dropped(entries, subject))
    ensures forall e :: e in Dropped(entries, subject) <==> e in entries && e.subject != subject
  {
    if entries != [] {
      assert OnePerSubject(entries[1..]) by {
        assert forall i :: 0 <= i < |entries[1..]| ==> entries[1..][i] == entries[i + 1];
      }
      DroppedIsOnePer(entries[1..], subject);
      assert forall e :: e in entries <==> e == entries[0] || e in entries[1..];
      var rest := Dropped(entries[1..], subject);
      forall k | 0 <= k < |rest| ensures rest[k].subject != entries[0].subject {
        assert rest[k] in rest;
        var j :| 0 <= j < |entries[1..]| && entries[1..][j] == rest[k];
        assert entries[j + 1] == rest[k];
      }
    }
  }

  // ---------- Whole runs ----------

  /**
   What can reach the table. `Act` is a behavior petition: `permitted` is whether the authority
   checks pass and `lands` whether the commit succeeds. `Restart` writes the table out and reads
   it back, which keeps every entry and sorts them by subject.
   */
  datatype Call =
    | Act(subject: Subject, next: Actuation, permitted: bool, lands: bool)
    | Reregister(subject: Subject, band: Band)
    | Remove(subject: Subject)
    | Restart

  /** The petition is accepted: permitted, admitted, and committed. */
  predicate Accepts(entries: seq<Entry>, call: Call) {
    call.Act? && call.permitted && call.lands && Admits(entries, call.subject, call.next)
  }

  const BY_SUBJECT: (Entry, Entry) -> bool := (a: Entry, b: Entry) => a.subject <= b.subject

  function SortEntries(s: seq<Entry>): seq<Entry> {
    StableSort.Sort(BY_SUBJECT, s)
  }

  function After(entries: seq<Entry>, call: Call): seq<Entry> {
    match call
    case Act(subject, next, _, _) => if Accepts(entries, call) then Recorded(entries, subject, next) else entries
    case Reregister(subject, band) => Registered(entries, subject, band)
    case Remove(subject) => Dropped(entries, subject)
    case Restart => SortEntries(entries)
  }

  lemma LookupExactly(entries: seq<Entry>, e: Entry)
    requires OnePerSubject(entries)
    ensures e in entries <==> Lookup(entries, e.subject) == Some(e)
  {
    if e in entries {
      var i :| 0 <= i < |entries| && entries[i] == e;
      FindOne(entries, i);
    }
  }

  /** The order a restart leaves behind: the same entries, ascending by subject. */
  lemma SortEntriesSorts(s: seq<Entry>)
    ensures StableSort.InOrder(BY_SUBJECT, SortEntries(s)) && multiset(SortEntries(s)) == multiset(s)
  {
    StableSort.SortOrders(BY_SUBJECT, s);
    StableSort.SortAdds(BY_SUBJECT, s);
  }

  lemma {:induction false} OncePerEntry(s: seq<Entry>, e: Entry)
    requires OnePerSubject(s)
    ensures multiset(s)[e] <= 1
  {
    if s != [] {
      assert OnePerSubject(s[1..]) by { assert forall i :: 0 <= i < |s[1..]| ==> s[1..][i] == s[i + 1]; }
      OncePerEntry(s[1..], e);
      assert s == [s[0]] + s[1..];
      if s[0] == e {
        assert e !in s[1..];
      }
    }
  }

  lemma TwoPlaces(t: seq<Entry>, i: nat, j: nat)
    requires i < j < |t| && t[i] == t[j]
    ensures multiset(t)[t[i]] >= 2
  {
    assert t == t[..i] + [t[i]] + t[i + 1..j] + [t[j]] + t[j + 1..];
  }

  lemma DifferentSubjects(s: seq<Entry>, t: seq<Entry>, i: nat, j: nat)
    requires OnePerSubject(s) && multiset(t) == multiset(s) && i < j < |t|
    ensures t[i].subject != t[j].subject
  {
    OncePerEntry(s, t[i]);
    if t[i] == t[j] { TwoPlaces(t, i, j); }
    assert t[i] in multiset(s) && t[j] in multiset(s);
    var k :| 0 <= k < |s| && s[k] == t[i];
    var l :| 0 <= l < |s| && s[l] == t[j];
  }

  lemma SortEntriesKeeps(s: seq<Entry>)
    requires OnePerSubject(s)
    ensures OnePerSubject(SortEntries(s))
    ensures forall x :: x in SortEntries(s) <==> x in s
  {
    var t := SortEntries(s);
    SortEntriesSorts(s);
    forall i, j | 0 <= i < j < |t| ensures t[i].subject != t[j].subject { DifferentSubjects(s, t, i, j); }
    forall x ensures x in t <==> x in s { assert x in multiset(t) <==> x in multiset(s); }
  }

  /** The table keeps one entry per subject, and a call that is not accepted moves no baseline. */
  lemma CallKeeps(entries: seq<Entry>, call: Call)
    requires OnePerSubject(entries)
    ensures OnePerSubject(After(entries, call))
    ensures call.Act? && !Accepts(entries, call) ==> After(entries, call) == entries
  {
    match call
    case Act(_, _, _, _) =>
    case Reregister(_, _) =>
    case Remove(subject) => DroppedIsOnePer(entries, subject);
    case Restart => SortEntriesKeeps(entries);
  }

  /** The call leaves the subject's declaration as it is. */
  predicate Unchanged(call: Call, subject: Subject, band: Band) {
    match call
    case Reregister(s, b) => s == subject ==> b == band
    case Remove(s) => s != subject
    case _ => true
  }

  /**
   An actuation is admitted exactly when its subject has no declaration, or nothing accepted yet,
   or both its output and its instant lie at least the declared distance from the last accepted.
   */
  lemma AdmittedIff(entries: seq<Entry>, subject: Subject, next: Actuation)
    requires OnePerSubject(entries)
    ensures Admits(entries, subject, next)
            <==> forall e :: e in entries && e.subject == subject && e.accepted.Some? ==>
                   && Distance(e.accepted.value.output, next.output) >= e.band.minimumChange
                   && next.atMs - e.accepted.value.atMs >= e.band.minimumIntervalMs
  {
    forall e | e in entries && e.subject == subject ensures Lookup(entries, subject) == Some(e) {
      LookupExactly(entries, e);
    }
    var i := Find(entries, subject);
    if i < |entries| { assert entries[i] in entries; }
  }

  /**
   Registering: the declaration stands as given; its baseline is kept if the declaration is the one
   that stood, and is cleared otherwise; nobody else's entry moves.
   */
  lemma RegisteredMeans(entries: seq<Entry>, subject: Subject, band: Band, e: Entry)
    requires OnePerSubject(entries)
    ensures e in Registered(entries, subject, band)
            <==> if e.subject != subject then e in entries
                 else e.band == band
                      && if exists old' :: old' in entries && old'.subject == subject && old'.band == band
                         then e in entries else e.accepted.None?
  {
    var i, after := Find(entries, subject), Registered(entries, subject, band);
    if i < |entries| {
      forall o | o in entries && o.subject == subject ensures o == entries[i] { LookupExactly(entries, o); }
      assert entries[i] in entries && after[i] in after;
      forall k | 0 <= k < |entries| && k != i ensures after[k] == entries[k] && entries[k].subject != subject {
        assert entries[k].subject != entries[i].subject;
      }
      assert e in after <==> e == after[i] || exists k :: 0 <= k < |entries| && k != i && entries[k] == e;
    } else {
      assert after == entries + [Entry(subject, band, None)];
      assert forall o :: o in entries ==> o.subject != subject;
    }
  }

  /** Recording moves the subject's baseline and nothing else; removing takes the subject's entry and nothing else. */
  lemma RecordedMeans(entries: seq<Entry>, subject: Subject, next: Actuation, e: Entry)
    requires OnePerSubject(entries)
    ensures e in Recorded(entries, subject, next)
            <==> if e.subject != subject then e in entries
                 else e.accepted == Some(next) && exists o :: o in entries && o.subject == subject && o.band == e.band
    ensures e in Dropped(entries, subject) <==> e.subject != subject && e in entries
  {
    DroppedIsOnePer(entries, subject);
    var i, after := Find(entries, subject), Recorded(entries, subject, next);
    if i < |entries| {
      forall o | o in entries && o.subject == subject ensures o == entries[i] { LookupExactly(entries, o); }
      assert entries[i] in entries && after[i] in after;
      forall k | 0 <= k < |entries| && k != i ensures after[k] == entries[k] && entries[k].subject != subject {
        assert entries[k].subject != entries[i].subject;
      }
      assert e in after <==> e == after[i] || exists k :: 0 <= k < |entries| && k != i && entries[k] == e;
    } else {
      assert forall o :: o in entries ==> o.subject != subject;
    }
  }

  /** What one call does to the entry of one subject whose declaration stands. */
  lemma EntryAfter(entries: seq<Entry>, call: Call, e: Entry)
    requires OnePerSubject(entries) && Lookup(entries, e.subject) == Some(e) && Unchanged(call, e.subject, e.band)
    ensures Lookup(After(entries, call), e.subject)
         == Some(if Accepts(entries, call) && call.subject == e.subject then e.(accepted := Some(call.next)) else e)
  {
    CallKeeps(entries, call);
    var after := After(entries, call);
    var e' := if Accepts(entries, call) && call.subject == e.subject then e.(accepted := Some(call.next)) else e;
    LookupExactly(entries, e);
    assert e' in after by {
      var i := Find(entries, e.subject);
      match call
      case Act(_, _, _, _) => if Accepts(entries, call) { assert after[i] == e' || after == entries; }
      case Reregister(_, _) => assert after[i] == e;
      case Remove(subject) => DroppedIsOnePer(entries, subject);
      case Restart => SortEntriesKeeps(entries);
    }
    LookupExactly(after, e');
  }

  /** The actuations of one subject that a run of calls accepts. */
  function AcceptedBy(entries: seq<Entry>, calls: seq<Call>, subject: Subject): seq<Actuation>
    decreases |calls|
  {
    if calls == [] then []
    else
      (if Accepts(entries, calls[0]) && calls[0].subject == subject then [calls[0].next] else [])
      + AcceptedBy(After(entries, calls[0]), calls[1..], subject)
  }

  ghost predicate Spaced(band: Band, acts: seq<Actuation>) {
    forall i :: 0 <= i < |acts| - 1 ==> SpacedAt(band, acts, i)
  }

  /** Two consecutive accepted actuations are far enough apart in output and in time. */
  ghost predicate SpacedAt(band: Band, acts: seq<Actuation>, i: int)
    requires 0 <= i < |acts| - 1
  {
    && Distance(acts[i].output, acts[i + 1].output) >= band.minimumChange
    && acts[i + 1].atMs >= acts[i].atMs + band.minimumIntervalMs
  }

  function Baseline(e: Entry): seq<Actuation> {
    if e.accepted.Some? then [e.accepted.value] else []
  }

  /**
   While a declaration is unchanged, over any run of petitions accepted or refused, failed commits,
   clocks that move back, other subjects' calls and restarts, consecutive accepted outputs differ
   by at least the minimum change and lie at least the minimum interval apart.
   */
  lemma {:induction false} AcceptedAreSpaced(entries: seq<Entry>, calls: seq<Call>, e: Entry)
    requires OnePerSubject(entries) && Lookup(entries, e.subject) == Some(e)
    requires forall c :: c in calls ==> Unchanged(c, e.subject, e.band)
    ensures Spaced(e.band, Baseline(e) + AcceptedBy(entries, calls, e.subject))
    decreases |calls|
  {
    if calls != [] {
      var call, rest := calls[0], calls[1..];
      assert call in calls && forall c :: c in rest ==> c in calls;
      CallKeeps(entries, call);
      EntryAfter(entries, call, e);
      var after := After(entries, call);
      if Accepts(entries, call) && call.subject == e.subject {
        var e' := e.(accepted := Some(call.next));
        AcceptedAreSpaced(after, rest, e');
        var tail := [call.next] + AcceptedBy(after, rest, e.subject);
        assert AcceptedBy(entries, calls, e.subject) == tail;
        if e.accepted.Some? {
          PrependSpaced(e.band, e.accepted.value, tail);
        } else {
          assert Baseline(e) + tail == tail;
        }
      } else {
        AcceptedAreSpaced(after, rest, e);
        assert AcceptedBy(entries, calls, e.subject) == AcceptedBy(after, rest, e.subject);
      }
    }
  }

  lemma PrependSpaced(band: Band, first: Actuation, acts: seq<Actuation>)
    requires acts != [] && Spaced(band, acts) && Clears(band, first, acts[0])
    ensures Spaced(band, [first] + acts)
  {
    var all := [first] + acts;
    forall i | 0 <= i < |all| - 1 ensures SpacedAt(band, all, i) {
      if i > 0 { assert SpacedAt(band, acts, i - 1); }
    }
  }

  lemma {:induction false} TimesApart(band: Band, acts: seq<Actuation>, i: nat, j: nat)
    requires Spaced(band, acts) && i <= j < |acts|
    ensures acts[j].atMs >= acts[i].atMs + (j - i) * band.minimumIntervalMs
    decreases j
  {
    if i < j {
      TimesApart(band, acts, i, j - 1);
      assert SpacedAt(band, acts, j - 1);
      assert (j - i) * band.minimumIntervalMs == (j - 1 - i) * band.minimumIntervalMs + band.minimumIntervalMs;
    }
  }

  /** The accepted actuations that fall in a window of time. */
  ghost function InWindow(acts: seq<Actuation>, from: nat, length: nat): set<int> {
    set i | 0 <= i < |acts| && from <= acts[i].atMs <= from + length
  }

  lemma {:induction false} IndexSpan(s: set<int>, lo: int, span: nat)
    requires forall i :: i in s ==> lo <= i <= lo + span
    ensures |s| <= span + 1
    decreases span
  {
    var top := lo + span;
    var t := s - {top};
    assert |s| <= |t| + 1;
    if span > 0 {
      IndexSpan(t, lo, span - 1);
    } else {
      assert forall i :: i !in t;
      assert t == {};
    }
  }

  lemma LeastIndex(s: set<int>, some: int) returns (lo: int)
    requires some in s
    ensures lo in s && forall i :: i in s ==> lo <= i
    decreases |s|
  {
    lo := some;
    var rest := s - {lo};
    if i :| i in rest {
      var least := LeastIndex(rest, i);
      if least < lo { lo := least; }
    }
    assert s == rest + {some};
  }

  /** So any window of length T accepts at most T divided by the interval, plus one. */
  lemma WindowBound(band: Band, acts: seq<Actuation>, from: nat, length: nat)
    requires Spaced(band, acts)
    ensures |InWindow(acts, from, length)| <= length / band.minimumIntervalMs + 1
  {
    var s := InWindow(acts, from, length);
    if i :| i in s {
      var lo := LeastIndex(s, i);
      var span := length / band.minimumIntervalMs;
      forall i | i in s ensures lo <= i <= lo + span {
        TimesApart(band, acts, lo, i);
        Quotient(i - lo, band.minimumIntervalMs, length);
      }
      IndexSpan(s, lo, span);
    }
  }

  lemma Quotient(n: nat, d: nat, length: nat)
    requires d > 0 && n * d <= length
    ensures n <= length / d
  {
    var q := length / d;
    assert length == q * d + length % d;
    if n > q {
      AtLeastTimes(q + 1, n, d);
      Distributes(q, d);
      assert false;
    }
  }

  lemma AtLeastTimes(a: nat, b: nat, d: nat)
    requires a <= b
    ensures a * d <= b * d
  {
    assert b * d == a * d + (b - a) * d;
  }

  lemma Distributes(q: nat, d: nat)
    ensures (q + 1) * d == q * d + d
  {
  }

  /** The rate bound over whole runs. */
  lemma RateBound(entries: seq<Entry>, calls: seq<Call>, e: Entry, from: nat, length: nat)
    requires OnePerSubject(entries) && Lookup(entries, e.subject) == Some(e)
    requires forall c :: c in calls ==> Unchanged(c, e.subject, e.band)
    ensures |InWindow(AcceptedBy(entries, calls, e.subject), from, length)| <= length / e.band.minimumIntervalMs + 1
  {
    AcceptedAreSpaced(entries, calls, e);
    var acts := AcceptedBy(entries, calls, e.subject);
    assert Spaced(e.band, acts) by {
      var all := Baseline(e) + acts;
      forall i | 0 <= i < |acts| - 1 ensures SpacedAt(e.band, acts, i) {
        assert SpacedAt(e.band, all, i + |Baseline(e)|);
      }
    }
    WindowBound(e.band, acts, from, length);
  }
}

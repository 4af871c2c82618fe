/**
 The pruning proposal of crates/stickleback/src/epoch_retention.rs: which epochs may be forgotten,
 exactly; that a blocked proposal forgets nothing; that holds only ever save epochs; that carrying
 a proposal out leaves nothing further to prune; and when every present epoch gets a decision.
 */
module EpochPruning {
  import opened Wrappers
  import opened Epochs

  datatype Mode = DataMode | MessageMode

  datatype Profile = Profile(mode: Mode, retained: nat)

  datatype Checkpoint = Checkpoint(id: nat, authority: nat, currentAuthority: nat, continuationReady: bool)

  datatype HoldReason =
    | DecryptionReachability
    | AuthorityReevaluation
    | PendingCausality
    | OfflineMember(member: nat)

  datatype Hold = Hold(epoch: Epoch, reason: HoldReason)

  datatype Facts = Facts(checkpoint: Option<Checkpoint>, holds: seq<Hold>)

  datatype Blocker =
    | WrongEncryptionMode(mode: Mode)
    | MissingCurrentEpoch
    | IncompleteEpochOrder
    | MissingCheckpoint
    | StaleCheckpointAuthority
    | MissingAuthorContinuation
    | HoldNamesUnknownEpoch(epoch: Epoch)

  datatype Reason = Current | ProfileFloor | Held(reason: HoldReason) | ProposalBlocked

  datatype Retained = Retained(epoch: Epoch, reasons: set<Reason>)

  datatype Proposal = Proposal(checkpoint: Option<nat>, retain: seq<Retained>, forget: seq<Epoch>,
                               blockers: seq<Blocker>)

  // ---------- What the proposal contains ----------

  predicate IsSmallest(s: set<Epoch>, m: Epoch) {
    m in s && forall x :: x in s ==> m <= x
  }

  lemma {:induction false} SmallestExists(s: set<Epoch>)
    requires s != {}
    ensures exists m :: IsSmallest(s, m)
    decreases |s|
  {
    var x :| x in s;
    var rest := s - {x};
    assert s == rest + {x};
    if rest == {} {
      assert IsSmallest(s, x);
    } else {
      SmallestExists(rest);
      var m :| IsSmallest(rest, m);
      assert IsSmallest(s, if m <= x then m else x);
    }
  }

  lemma PrependIsListing(m: Epoch, rest: seq<Epoch>, s: set<Epoch>)
    requires m in s && Members(rest) == s - {m} && Distinct(rest)
    ensures Members([m] + rest) == s && Distinct([m] + rest)
  {
    assert Members([m] + rest) == {m} + Members(rest);
    assert forall i :: 0 <= i < |rest| ==> rest[i] in Members(rest);
  }

  /** The present identifiers in ascending order. */
  function Ids(s: set<Epoch>): (r: seq<Epoch>)
    ensures Members(r) == s && Distinct(r)
    decreases |s|
  {
    if s == {} then []
    else
      SmallestExists(s);
      var m :| m in s && IsSmallest(s, m);
      var rest := Ids(s - {m});
      PrependIsListing(m, rest, s);
      [m] + rest
  }

  function Ordered(r: Ring, latest: Latest): seq<Epoch> {
    var order := OldestFirst(r, latest);
    if order.Some? then order.value else Ids(r.secrets.Keys)
  }

  function When<T>(c: bool, x: T): seq<T> {
    if c then [x] else []
  }

  /** The gates that do not depend on the holds, in order. */
  function GateBlockers(profile: Profile, r: Ring, facts: Facts, latest: Latest): seq<Blocker> {
    When(profile.mode != DataMode, WrongEncryptionMode(profile.mode))
    + When(latest(r.secrets).None?, MissingCurrentEpoch)
    + When(OldestFirst(r, latest).None?, IncompleteEpochOrder)
    + When(facts.checkpoint.None?, MissingCheckpoint)
    + When(facts.checkpoint.Some? && facts.checkpoint.value.authority != facts.checkpoint.value.currentAuthority,
        StaleCheckpointAuthority)
    + When(facts.checkpoint.Some? && !facts.checkpoint.value.continuationReady, MissingAuthorContinuation)
  }

  /** Further blockers for holds on epochs that are not present, each named once. */
  function WithUnknown(r: Ring, holds: seq<Hold>, n: nat, start: seq<Blocker>): seq<Blocker>
    requires n <= |holds|
  {
    if n == 0 then start
    else
      var before := WithUnknown(r, holds, n - 1, start);
      var blocker := HoldNamesUnknownEpoch(holds[n - 1].epoch);
      if holds[n - 1].epoch in r.secrets || blocker in before then before else before + [blocker]
  }

  function Blockers(profile: Profile, r: Ring, facts: Facts, latest: Latest): seq<Blocker> {
    WithUnknown(r, facts.holds, |facts.holds|, GateBlockers(profile, r, facts, latest))
  }

  /** Nothing stands in the way. */
  ghost predicate Unblocked(profile: Profile, r: Ring, facts: Facts, latest: Latest) {
    && profile.mode == DataMode
    && latest(r.secrets).Some?
    && OldestFirst(r, latest).Some?
    && facts.checkpoint.Some?
    && facts.checkpoint.value.authority == facts.checkpoint.value.currentAuthority
    && facts.checkpoint.value.continuationReady
    && forall h :: h in facts.holds ==> h.epoch in r.secrets
  }

  lemma {:induction false} WithUnknownEmpty(r: Ring, holds: seq<Hold>, n: nat, start: seq<Blocker>)
    requires n <= |holds|
    ensures WithUnknown(r, holds, n, start) == []
            <==> start == [] && forall i :: 0 <= i < n ==> holds[i].epoch in r.secrets
  {
    if n > 0 { WithUnknownEmpty(r, holds, n - 1, start); }
  }

  lemma BlockersExactly(profile: Profile, r: Ring, facts: Facts, latest: Latest)
    ensures Blockers(profile, r, facts, latest) == [] <==> Unblocked(profile, r, facts, latest)
  {
    WithUnknownEmpty(r, facts.holds, |facts.holds|, GateBlockers(profile, r, facts, latest));
  }

  lemma {:induction false} UnknownMembers(r: Ring, holds: seq<Hold>, n: nat, start: seq<Blocker>, b: Blocker)
    requires n <= |holds|
    ensures b in WithUnknown(r, holds, n, start)
            <==> b in start || (b.HoldNamesUnknownEpoch? && b.epoch !in r.secrets
                                && exists i :: 0 <= i < n && holds[i].epoch == b.epoch)
  {
    if n > 0 { UnknownMembers(r, holds, n - 1, start, b); }
  }

  lemma WhenHolds<T>(c: bool, x: T, y: T)
    ensures y in When(c, x) <==> c && y == x
  {
  }

  lemma GateMembers(profile: Profile, r: Ring, facts: Facts, latest: Latest, b: Blocker)
    ensures b in GateBlockers(profile, r, facts, latest)
            <==> || b in When(profile.mode != DataMode, WrongEncryptionMode(profile.mode))
                 || b in When(latest(r.secrets).None?, MissingCurrentEpoch)
                 || b in When(OldestFirst(r, latest).None?, IncompleteEpochOrder)
                 || b in When(facts.checkpoint.None?, MissingCheckpoint)
                 || b in When(facts.checkpoint.Some?
                              && facts.checkpoint.value.authority != facts.checkpoint.value.currentAuthority,
                              StaleCheckpointAuthority)
                 || b in When(facts.checkpoint.Some? && !facts.checkpoint.value.continuationReady,
                              MissingAuthorContinuation)
  {
  }

  /** Each blocker is reported exactly when what it names is so. */
  lemma BlockerMeans(profile: Profile, r: Ring, facts: Facts, latest: Latest, b: Blocker)
    ensures b in Blockers(profile, r, facts, latest)
            <==> match b
                 case WrongEncryptionMode(mode) => mode == profile.mode && mode != DataMode
                 case MissingCurrentEpoch => latest(r.secrets).None?
                 case IncompleteEpochOrder => OldestFirst(r, latest).None?
                 case MissingCheckpoint => facts.checkpoint.None?
                 case StaleCheckpointAuthority =>
                   && facts.checkpoint.Some?
                   && facts.checkpoint.value.authority != facts.checkpoint.value.currentAuthority
                 case MissingAuthorContinuation =>
                   facts.checkpoint.Some? && !facts.checkpoint.value.continuationReady
                 case HoldNamesUnknownEpoch(epoch) =>
                   epoch !in r.secrets && exists i :: 0 <= i < |facts.holds| && facts.holds[i].epoch == epoch
  {
    UnknownMembers(r, facts.holds, |facts.holds|, GateBlockers(profile, r, facts, latest), b);
    GateMembers(profile, r, facts, latest, b);
  }

  function HoldsOn(holds: seq<Hold>, e: Epoch): set<HoldReason> {
    set h | h in holds && h.epoch == e :: h.reason
  }

  function FloorStart(count: nat, retained: nat): nat {
    if count >= retained then count - retained else 0
  }

  function Reasons(current: Option<Epoch>, holds: set<HoldReason>, blocked: bool, floor: bool, e: Epoch): set<Reason> {
    (if current == Some(e) then {Current} else {})
    + (if floor then {ProfileFloor} else {})
    + (set h | h in holds :: Held(h))
    + (if blocked then {ProposalBlocked} else {})
  }

  /** Why the epoch at one position stays; empty when it may go. */
  function ReasonsAt(profile: Profile, r: Ring, facts: Facts, latest: Latest, i: nat): set<Reason>
    requires i < |Ordered(r, latest)|
  {
    var ordered := Ordered(r, latest);
    Reasons(latest(r.secrets), HoldsOn(facts.holds, ordered[i]), Blockers(profile, r, facts, latest) != [],
            i >= FloorStart(|ordered|, profile.retained), ordered[i])
  }

  /** The decisions for the whole order. */
  function Decisions(profile: Profile, r: Ring, facts: Facts, latest: Latest): seq<set<Reason>> {
    var n := |Ordered(r, latest)|;
    seq(n, i requires 0 <= i < n => ReasonsAt(profile, r, facts, latest, i))
  }

  function RetainUpTo(ordered: seq<Epoch>, decisions: seq<set<Reason>>, n: nat): seq<Retained>
    requires n <= |ordered| == |decisions|
  {
    if n == 0 then []
    else
      RetainUpTo(ordered, decisions, n - 1)
      + When(decisions[n - 1] != {}, Retained(ordered[n - 1], decisions[n - 1]))
  }

  function ForgetUpTo(ordered: seq<Epoch>, decisions: seq<set<Reason>>, n: nat): seq<Epoch>
    requires n <= |ordered| == |decisions|
  {
    if n == 0 then []
    else ForgetUpTo(ordered, decisions, n - 1) + When(decisions[n - 1] == {}, ordered[n - 1])
  }

  function Proposed(profile: Profile, r: Ring, facts: Facts, latest: Latest): Proposal {
    var ordered, decisions := Ordered(r, latest), Decisions(profile, r, facts, latest);
    Proposal(if facts.checkpoint.Some? then Some(facts.checkpoint.value.id) else None,
             RetainUpTo(ordered, decisions, |ordered|), ForgetUpTo(ordered, decisions, |ordered|),
             Blockers(profile, r, facts, latest))
  }

  // ---------- Computing it ----------

  method CollectUnknown(r: Ring, holds: seq<Hold>, start: seq<Blocker>) returns (blockers: seq<Blocker>)
    ensures blockers == WithUnknown(r, holds, |holds|, start)
  {
    blockers := start;
    for i := 0 to |holds|
      invariant blockers == WithUnknown(r, holds, i, start)
    {
      if holds[i].epoch !in r.secrets {
        var blocker := HoldNamesUnknownEpoch(holds[i].epoch);
        if blocker !in blockers {
          blockers := blockers + [blocker];
        }
      }
    }
  }

  method CollectBlockers(profile: Profile, r: Ring, facts: Facts, latest: Latest) returns (blockers: seq<Blocker>)
    ensures blockers == Blockers(profile, r, facts, latest)
  {
    blockers := CollectUnknown(r, facts.holds, GateBlockers(profile, r, facts, latest));
  }

  /** The holds grouped by the present epoch they name. */
  method GroupHolds(r: Ring, holds: seq<Hold>) returns (grouped: map<Epoch, set<HoldReason>>)
    ensures forall e :: e in r.secrets ==> HoldsIn(grouped, e) == HoldsOn(holds, e)
  {
    grouped := map[];
    for i := 0 to |holds|
      invariant forall e :: e in r.secrets ==> HoldsIn(grouped, e) == HoldsOn(holds[..i], e)
    {
      var h := holds[i];
      forall e
        ensures HoldsOn(holds[..i + 1], e) == HoldsOn(holds[..i], e) + (if e == h.epoch then {h.reason} else {})
      {
        HoldsGrow(holds, i, e);
      }
      if h.epoch in r.secrets {
        grouped := grouped[h.epoch := HoldsIn(grouped, h.epoch) + {h.reason}];
      }
    }
    assert holds[..|holds|] == holds;
  }

  lemma HoldsGrow(holds: seq<Hold>, i: nat, e: Epoch)
    requires i < |holds|
    ensures HoldsOn(holds[..i + 1], e) == HoldsOn(holds[..i], e)
            + (if e == holds[i].epoch then {holds[i].reason} else {})
  {
    assert holds[..i + 1] == holds[..i] + [holds[i]];
  }

  lemma OrderedPresent(r: Ring, latest: Latest, i: nat)
    requires i < |Ordered(r, latest)|
    ensures Ordered(r, latest)[i] in r.secrets
  {
    assert Ordered(r, latest)[i] in Members(Ordered(r, latest));
  }

  lemma DecideNext(ordered: seq<Epoch>, decisions: seq<set<Reason>>, i: nat)
    requires i < |ordered| == |decisions|
    ensures decisions[i] == {} ==>
              && ForgetUpTo(ordered, decisions, i + 1) == ForgetUpTo(ordered, decisions, i) + [ordered[i]]
              && RetainUpTo(ordered, decisions, i + 1) == RetainUpTo(ordered, decisions, i)
    ensures decisions[i] != {} ==>
              && ForgetUpTo(ordered, decisions, i + 1) == ForgetUpTo(ordered, decisions, i)
              && RetainUpTo(ordered, decisions, i + 1) == RetainUpTo(ordered, decisions, i)
                  + [Retained(ordered[i], decisions[i])]
  {
  }

  function HoldsIn(grouped: map<Epoch, set<HoldReason>>, e: Epoch): set<HoldReason> {
    if e in grouped then grouped[e] else {}
  }

  /** The deciding loop: an epoch with no reason to stay goes on the list to forget. */
  method Decide(ordered: seq<Epoch>, current: Option<Epoch>, domainHolds: map<Epoch, set<HoldReason>>, blocked: bool,
                floorStart: nat, ghost decisions: seq<set<Reason>>)
    returns (retain: seq<Retained>, forget: seq<Epoch>)
    requires |decisions| == |ordered|
    requires forall i :: 0 <= i < |ordered| ==>
               decisions[i] == Reasons(current, HoldsIn(domainHolds, ordered[i]), blocked, i >= floorStart, ordered[i])
    ensures retain == RetainUpTo(ordered, decisions, |ordered|) && forget == ForgetUpTo(ordered, decisions, |ordered|)
  {
    retain, forget := [], [];
    for i := 0 to |ordered|
      invariant retain == RetainUpTo(ordered, decisions, i)
      invariant forget == ForgetUpTo(ordered, decisions, i)
    {
      DecideNext(ordered, decisions, i);
      var epoch := ordered[i];
      var reasons := Reasons(current, HoldsIn(domainHolds, epoch), blocked, i >= floorStart, epoch);
      if reasons == {} {
        forget := forget + [epoch];
      } else {
        retain := retain + [Retained(epoch, reasons)];
      }
    }
  }

  method ProposeEpochPruning(profile: Profile, r: Ring, facts: Facts, latest: Latest) returns (p: Proposal)
    ensures p == Proposed(profile, r, facts, latest)
  {
    var blockers := CollectBlockers(profile, r, facts, latest);
    var domainHolds := GroupHolds(r, facts.holds);
    var current := latest(r.secrets);
    var ordered := Ordered(r, latest);
    var floorStart := FloorStart(|ordered|, profile.retained);
    forall i | 0 <= i < |ordered| ensures ordered[i] in r.secrets { OrderedPresent(r, latest, i); }
    var retain, forget := Decide(ordered, current, domainHolds, blockers != [], floorStart,
                                 Decisions(profile, r, facts, latest));
    p := Proposal(if facts.checkpoint.Some? then Some(facts.checkpoint.value.id) else None, retain, forget, blockers);
  }

  // ---------- What may be forgotten ----------

  /** The epoch at one position of the order is free to go. */
  ghost predicate Free(profile: Profile, r: Ring, facts: Facts, latest: Latest, i: nat)
    requires i < |Ordered(r, latest)|
  {
    var e := Ordered(r, latest)[i];
    && Unblocked(profile, r, facts, latest)
    && latest(r.secrets) != Some(e)
    && i + profile.retained < |Ordered(r, latest)|
    && forall h :: h in facts.holds ==> h.epoch != e
  }

  lemma FreeExactly(profile: Profile, r: Ring, facts: Facts, latest: Latest, i: nat)
    requires i < |Ordered(r, latest)|
    ensures ReasonsAt(profile, r, facts, latest, i) == {} <==> Free(profile, r, facts, latest, i)
  {
    BlockersExactly(profile, r, facts, latest);
    var e := Ordered(r, latest)[i];
    assert HoldsOn(facts.holds, e) == {} <==> forall h :: h in facts.holds ==> h.epoch != e by {
      if h :| h in facts.holds && h.epoch == e { assert h.reason in HoldsOn(facts.holds, e); }
    }
    var blocked := Blockers(profile, r, facts, latest) != [];
    var floor := i >= FloorStart(|Ordered(r, latest)|, profile.retained);
    ReasonsEmpty(latest(r.secrets), HoldsOn(facts.holds, e), blocked, floor, e);
  }

  /** The reasons given for one epoch are all of those that apply and no others. */
  lemma ReasonsExactly(profile: Profile, r: Ring, facts: Facts, latest: Latest, i: nat)
    requires i < |Ordered(r, latest)|
    ensures var e, reasons := Ordered(r, latest)[i], ReasonsAt(profile, r, facts, latest, i);
            && (Current in reasons <==> latest(r.secrets) == Some(e))
            && (ProfileFloor in reasons <==> i + profile.retained >= |Ordered(r, latest)|)
            && (forall h :: Held(h) in reasons <==> Hold(e, h) in facts.holds)
            && (ProposalBlocked in reasons <==> !Unblocked(profile, r, facts, latest))
  {
    BlockersExactly(profile, r, facts, latest);
    var e := Ordered(r, latest)[i];
    forall h ensures h in HoldsOn(facts.holds, e) <==> Hold(e, h) in facts.holds {
      if Hold(e, h) in facts.holds { assert Hold(e, h).reason in HoldsOn(facts.holds, e); }
    }
  }

  lemma ReasonsEmpty(current: Option<Epoch>, holds: set<HoldReason>, blocked: bool, floor: bool, e: Epoch)
    ensures Reasons(current, holds, blocked, floor, e) == {} <==>
            current != Some(e) && holds == {} && !blocked && !floor
  {
    var reasons := Reasons(current, holds, blocked, floor, e);
    if current == Some(e) { assert Current in reasons; }
    if floor { assert ProfileFloor in reasons; }
    if blocked { assert ProposalBlocked in reasons; }
    if h :| h in holds { assert Held(h) in reasons; }
  }

  lemma {:induction false} ForgetMembers(ordered: seq<Epoch>, decisions: seq<set<Reason>>, n: nat, e: Epoch)
    requires n <= |ordered| == |decisions|
    ensures e in ForgetUpTo(ordered, decisions, n) <==> exists i :: 0 <= i < n && ordered[i] == e && decisions[i] == {}
  {
    if n > 0 { ForgetMembers(ordered, decisions, n - 1, e); }
  }

  /**
   An epoch is proposed for forgetting exactly when nothing blocks the proposal and some position
   it has in the order is older than the newest `retained`, it is not current, and no hold names it.
   */
  lemma ForgetExactly(profile: Profile, r: Ring, facts: Facts, latest: Latest, e: Epoch)
    ensures e in Proposed(profile, r, facts, latest).forget
            <==> exists i ::
                   && 0 <= i < |Ordered(r, latest)| && Ordered(r, latest)[i] == e
                   && Free(profile, r, facts, latest, i)
  {
    var ordered, decisions := Ordered(r, latest), Decisions(profile, r, facts, latest);
    ForgetMembers(ordered, decisions, |ordered|, e);
    forall i | 0 <= i < |ordered| ensures decisions[i] == {} <==> Free(profile, r, facts, latest, i) {
      FreeExactly(profile, r, facts, latest, i);
    }
  }

  /** More holds never free an epoch: whatever is forgotten with them was forgotten without them. */
  lemma HoldsOnlySave(profile: Profile, r: Ring, facts: Facts, latest: Latest, more: seq<Hold>, e: Epoch)
    requires e in Proposed(profile, r, facts.(holds := facts.holds + more), latest).forget
    ensures e in Proposed(profile, r, facts, latest).forget
    ensures forall h :: h in more ==> h.epoch != e
  {
    var wider := facts.(holds := facts.holds + more);
    ForgetExactly(profile, r, wider, latest, e);
    ForgetExactly(profile, r, facts, latest, e);
    var i :| 0 <= i < |Ordered(r, latest)| && Ordered(r, latest)[i] == e && Free(profile, r, wider, latest, i);
    assert forall h :: h in facts.holds || h in more ==> h in wider.holds;
    assert Free(profile, r, facts, latest, i);
  }

  // ---------- Does every present epoch get a decision? ----------

  function RetainedEpochs(retain: seq<Retained>): seq<Epoch> {
    seq(|retain|, i requires 0 <= i < |retain| => retain[i].epoch)
  }

  /** The epochs whose mark is the wanted one. */
  function Pick(s: seq<Epoch>, marks: seq<bool>, want: bool, n: nat): seq<Epoch>
    requires n <= |s| == |marks|
  {
    if n == 0 then [] else Pick(s, marks, want, n - 1) + When(marks[n - 1] == want, s[n - 1])
  }

  lemma PickNext(s: seq<Epoch>, marks: seq<bool>, n: nat)
    requires n < |s| == |marks|
    ensures Pick(s, marks, marks[n], n + 1) == Pick(s, marks, marks[n], n) + [s[n]]
    ensures Pick(s, marks, !marks[n], n + 1) == Pick(s, marks, !marks[n], n)
  {
  }

  /** Two lists that share out a third. */
  ghost predicate Shares(a: seq<Epoch>, b: seq<Epoch>, whole: seq<Epoch>) {
    multiset(a) + multiset(b) == multiset(whole)
  }

  lemma SharesMore(a: seq<Epoch>, b: seq<Epoch>, whole: seq<Epoch>, e: Epoch)
    requires Shares(a, b, whole)
    ensures Shares(a + [e], b, whole + [e]) && Shares(a, b + [e], whole + [e])
  {
  }

  lemma PickSplitsNext(s: seq<Epoch>, marks: seq<bool>, n: nat, yes: seq<Epoch>, no: seq<Epoch>)
    requires n < |s| == |marks| && yes == Pick(s, marks, true, n) && no == Pick(s, marks, false, n)
            && Shares(yes, no, s[..n])
    ensures Shares(Pick(s, marks, true, n + 1), Pick(s, marks, false, n + 1), s[..n + 1])
  {
    SharesMore(yes, no, s[..n], s[n]);
    assert s[..n + 1] == s[..n] + [s[n]];
    PickNext(s, marks, n);
    if marks[n] {
      assert Pick(s, marks, true, n + 1) == yes + [s[n]];
      assert Pick(s, marks, false, n + 1) == no;
    } else {
      assert Pick(s, marks, true, n + 1) == yes;
      assert Pick(s, marks, false, n + 1) == no + [s[n]];
    }
  }

  lemma PickSplits(s: seq<Epoch>, marks: seq<bool>)
    requires |s| == |marks|
    ensures Shares(Pick(s, marks, true, |s|), Pick(s, marks, false, |s|), s)
  {
    for n := 0 to |s|
      invariant Shares(Pick(s, marks, true, n), Pick(s, marks, false, n), s[..n])
    {
      PickSplitsNext(s, marks, n, Pick(s, marks, true, n), Pick(s, marks, false, n));
    }
    assert s[..|s|] == s;
  }

  function Stays(decisions: seq<set<Reason>>): seq<bool> {
    seq(|decisions|, i requires 0 <= i < |decisions| => decisions[i] != {})
  }

  lemma {:induction false} ForgetIsPick(ordered: seq<Epoch>, decisions: seq<set<Reason>>, n: nat)
    requires n <= |ordered| == |decisions|
    ensures ForgetUpTo(ordered, decisions, n) == Pick(ordered, Stays(decisions), false, n)
  {
    if n > 0 { ForgetIsPick(ordered, decisions, n - 1); }
  }

  lemma EpochsOfMore(retain: seq<Retained>, x: Retained)
    ensures RetainedEpochs(retain + [x]) == RetainedEpochs(retain) + [x.epoch]
  {
  }

  lemma {:induction false} RetainIsPick(ordered: seq<Epoch>, decisions: seq<set<Reason>>, n: nat)
    requires n <= |ordered| == |decisions|
    ensures RetainedEpochs(RetainUpTo(ordered, decisions, n)) == Pick(ordered, Stays(decisions), true, n)
  {
    if n > 0 {
      RetainIsPick(ordered, decisions, n - 1);
      DecideNext(ordered, decisions, n - 1);
      if decisions[n - 1] != {} {
        EpochsOfMore(RetainUpTo(ordered, decisions, n - 1), Retained(ordered[n - 1], decisions[n - 1]));
      }
    }
  }

  lemma {:induction false} RetainMembers(ordered: seq<Epoch>, decisions: seq<set<Reason>>, n: nat, x: Retained)
    requires n <= |ordered| == |decisions|
    ensures x in RetainUpTo(ordered, decisions, n)
            <==> x.reasons != {} && exists i :: 0 <= i < n && ordered[i] == x.epoch && decisions[i] == x.reasons
  {
    if n > 0 {
      RetainMembers(ordered, decisions, n - 1, x);
      WhenHolds(decisions[n - 1] != {}, Retained(ordered[n - 1], decisions[n - 1]), x);
    }
  }

  /** An epoch is retained with exactly its reasons, and the proposal names the checkpoint it was computed from. */
  lemma RetainedWithReasons(profile: Profile, r: Ring, facts: Facts, latest: Latest, x: Retained)
    ensures var p := Proposed(profile, r, facts, latest);
            && (x in p.retain <==>
                  && x.reasons != {}
                  && exists i :: 0 <= i < |Ordered(r, latest)| && Ordered(r, latest)[i] == x.epoch
                                 && ReasonsAt(profile, r, facts, latest, i) == x.reasons)
            && p.checkpoint == (match facts.checkpoint case Some(c) => Some(c.id) case None => None)
  {
    var ordered, decisions := Ordered(r, latest), Decisions(profile, r, facts, latest);
    RetainMembers(ordered, decisions, |ordered|, x);
    assert forall i :: 0 <= i < |ordered| ==> decisions[i] == ReasonsAt(profile, r, facts, latest, i);
  }

  /** The two lists of a proposal together are the order it was computed from. */
  lemma ProposalSplitsTheOrder(profile: Profile, r: Ring, facts: Facts, latest: Latest)
    ensures var p := Proposed(profile, r, facts, latest);
            multiset(RetainedEpochs(p.retain)) + multiset(p.forget) == multiset(Ordered(r, latest))
  {
    var ordered := Ordered(r, latest);
    var decisions := Decisions(profile, r, facts, latest);
    RetainIsPick(ordered, decisions, |ordered|);
    ForgetIsPick(ordered, decisions, |ordered|);
    PickSplits(ordered, Stays(decisions));
    assert ordered[..|ordered|] == ordered;
  }

  /** Every present epoch is listed once, in one of the two lists. */
  ghost predicate EachDecidedOnce(profile: Profile, r: Ring, facts: Facts, latest: Latest) {
    var p := Proposed(profile, r, facts, latest);
    multiset(RetainedEpochs(p.retain)) + multiset(p.forget) == multiset(r.secrets.Keys)
  }

  lemma {:induction false} DistinctIsItsSet(s: seq<Epoch>)
    ensures multiset(s) == multiset(Members(s)) <==> Distinct(s)
  {
    DistinctSize(s);
    assert |multiset(s)| == |s| && |multiset(Members(s))| == |Members(s)|;
    if Distinct(s) { DistinctOnce(s); }
  }

  lemma {:induction false} DistinctOnce(s: seq<Epoch>)
    requires Distinct(s)
    ensures multiset(s) == multiset(Members(s))
  {
    if s != [] {
      var front, last := s[..|s| - 1], s[|s| - 1];
      DistinctOnce(front);
      assert s == front + [last];
      assert Members(s) == Members(front) + {last};
      assert last !in Members(front);
    }
  }

  /**
   The order is used as it was stored: a keyring whose chronology is accepted gets one decision
   per present epoch exactly when that chronology repeats nothing, which the
   chronology test (lengths agree, every listed epoch is present, the last is current) does not ask.
   */
  lemma DecidedOnceIffDistinct(profile: Profile, r: Ring, facts: Facts, latest: Latest)
    requires OldestFirst(r, latest).Some?
    ensures EachDecidedOnce(profile, r, facts, latest) <==> Distinct(r.installed)
  {
    ProposalSplitsTheOrder(profile, r, facts, latest);
    DistinctIsItsSet(r.installed);
    DistinctSize(r.installed);
    assert |r.secrets| == |r.secrets.Keys|;
    assert Members(r.installed) <= r.secrets.Keys;
    if Distinct(r.installed) {
      SubsetOfSameSize(Members(r.installed), r.secrets.Keys);
    }
  }

  /** A stored keyring that passes the chronology check and leaves an epoch without a decision. */
  lemma RepeatedEpochExample(profile: Profile, facts: Facts, latest: Latest)
    requires latest(map[1 := 10, 2 := 20]) == Some(2)
    ensures var r := Ring(map[1 := 10, 2 := 20], 1, [2, 2]);
            && OldestFirst(r, latest) == Some([2, 2])
            && !EachDecidedOnce(profile, r, facts, latest)
  {
    var secrets: Secrets := map[1 := 10, 2 := 20];
    var r := Ring(secrets, 1, [2, 2]);
    assert |secrets| == |secrets.Keys| == |{1, 2}|;
    assert r.installed[0] == r.installed[1];
    DecidedOnceIffDistinct(profile, r, facts, latest);
  }

  /** Keyrings built by their own operations always get one decision per epoch. */
  lemma ChronicledDecidedOnce(profile: Profile, r: Ring, facts: Facts, latest: Latest)
    requires Chronicled(r)
    ensures EachDecidedOnce(profile, r, facts, latest)
  {
    ProposalSplitsTheOrder(profile, r, facts, latest);
    DistinctOnce(Ordered(r, latest));
  }

  // ---------- Carrying a proposal out ----------

  /** The elements of a sequence that belong to a set, in order. */
  function Kept(s: seq<Epoch>, keep: set<Epoch>): (r: seq<Epoch>)
    ensures |r| <= |s|
    ensures forall x :: x in r <==> x in s && x in keep
  {
    if s == [] then [] else Kept(s[..|s| - 1], keep) + When(s[|s| - 1] in keep, s[|s| - 1])
  }

  lemma {:induction false} WithoutLast(s: seq<Epoch>, x: Epoch, e: Epoch)
    ensures Without(s + [x], e) == Without(s, e) + When(x != e, x)
  {
    if s == [] {
      assert s + [x] == [x] && [x][1..] == [];
      assert Without([], e) == [];
    } else {
      assert (s + [x])[1..] == s[1..] + [x] && (s + [x])[0] == s[0];
      WithoutLast(s[1..], x, e);
    }
  }

  lemma {:induction false} WithoutKept(s: seq<Epoch>, keep: set<Epoch>, e: Epoch)
    ensures Without(Kept(s, keep), e) == Kept(s, keep - {e})
  {
    if s != [] {
      var front, last := s[..|s| - 1], s[|s| - 1];
      WithoutKept(front, keep, e);
      if last in keep {
        WithoutLast(Kept(front, keep), last, e);
      } else {
        assert Kept(front, keep) + [] == Kept(front, keep);
      }
    }
  }

  lemma {:induction false} KeptAll(s: seq<Epoch>, keep: set<Epoch>)
    requires forall i :: 0 <= i < |s| ==> s[i] in keep
    ensures Kept(s, keep) == s
  {
    if s != [] {
      KeptAll(s[..|s| - 1], keep);
      assert s == s[..|s| - 1] + [s[|s| - 1]];
    }
  }

  /** What is left after forgetting a set: the remaining secrets, in their old order. */
  ghost predicate Reduced(r: Ring, t: Ring, gone: set<Epoch>) {
    && t.orderVersion == 1 && t.secrets == r.secrets - gone
    && t.installed == Kept(r.installed, r.secrets.Keys - gone)
  }

  lemma ReducedNone(r: Ring)
    requires Chronicled(r) && r.orderVersion == 1
    ensures Reduced(r, r, {})
  {
    var none: set<Epoch> := {};
    assert r.secrets.Keys - none == r.secrets.Keys && r.secrets - none == r.secrets;
    assert Kept(r.installed, r.secrets.Keys - none) == r.installed by {
      forall i | 0 <= i < |r.installed| ensures r.installed[i] in r.secrets.Keys {
        assert r.installed[i] in Members(r.installed);
      }
      KeptAll(r.installed, r.secrets.Keys);
    }
  }

  lemma ReducedOne(r: Ring, t: Ring, gone: set<Epoch>, e: Epoch)
    requires Reduced(r, t, gone)
    ensures Reduced(r, Forgotten(t, e), gone + {e})
  {
    assert t.secrets - {e} == r.secrets - (gone + {e});
    if e in t.secrets {
      WithoutKept(r.installed, r.secrets.Keys - gone, e);
      assert (r.secrets.Keys - gone) - {e} == r.secrets.Keys - (gone + {e});
    } else {
      assert r.secrets.Keys - gone == r.secrets.Keys - (gone + {e});
    }
  }

  lemma {:induction false} ForgottenAllIs(r: Ring, forget: seq<Epoch>)
    requires Chronicled(r) && r.orderVersion == 1
    ensures Reduced(r, ForgottenAll(r, forget), Members(forget))
    decreases |forget|
  {
    if forget == [] {
      ReducedNone(r);
      assert Members(forget) == {};
    } else {
      var n := |forget| - 1;
      ForgottenAllIs(r, forget[..n]);
      MembersGrow(forget, n);
      assert forget[..n + 1] == forget;
      ReducedOne(r, ForgottenAll(r, forget[..n]), Members(forget[..n]), forget[n]);
    }
  }

  lemma {:induction false} LatestStays(secrets: Secrets, latest: Latest, gone: seq<Epoch>)
    requires Lawful(latest) && latest(secrets).Some? && latest(secrets).value !in gone
    ensures latest(secrets - Members(gone)) == latest(secrets)
    decreases |gone|
  {
    if gone == [] {
      assert secrets - Members(gone) == secrets;
    } else {
      var n := |gone| - 1;
      LatestStays(secrets, latest, gone[..n]);
      MembersGrow(gone, n);
      assert gone[..n + 1] == gone;
      assert secrets - Members(gone) == (secrets - Members(gone[..n])) - {gone[n]};
    }
  }

  /** An element that is kept has no fewer elements after it in the original. */
  lemma {:induction false} KeptPosition(s: seq<Epoch>, keep: set<Epoch>, j: nat) returns (i: nat)
    requires j < |Kept(s, keep)|
    ensures i < |s| && s[i] == Kept(s, keep)[j] && |Kept(s, keep)| - j <= |s| - i
  {
    var front := s[..|s| - 1];
    if j == |Kept(front, keep)| {
      i := |s| - 1;
    } else {
      i := KeptPosition(front, keep, j);
    }
  }

  lemma CountsOfDistinct(s: seq<Epoch>, whole: set<Epoch>, rest: multiset<Epoch>)
    requires rest + multiset(s) == multiset(whole)
    ensures Distinct(s) && Members(s) <= whole
  {
    forall i, j | 0 <= i < j < |s| ensures s[i] != s[j] {
      assert s == s[..i] + [s[i]] + s[i + 1..j] + [s[j]] + s[j + 1..];
      assert multiset(whole)[s[i]] <= 1;
    }
    forall e | e in Members(s) ensures e in whole {
      assert e in multiset(whole);
    }
  }

  /** The list to forget can be carried out: no repeats, and every epoch on it is present. */
  lemma ForgetIsRemovable(profile: Profile, r: Ring, facts: Facts, latest: Latest)
    requires Chronicled(r)
    ensures var forget := Proposed(profile, r, facts, latest).forget;
            Distinct(forget) && Members(forget) <= r.secrets.Keys
  {
    ChronicledDecidedOnce(profile, r, facts, latest);
    var p := Proposed(profile, r, facts, latest);
    CountsOfDistinct(p.forget, r.secrets.Keys, multiset(RetainedEpochs(p.retain)));
  }

  lemma CurrentIsKept(profile: Profile, r: Ring, facts: Facts, latest: Latest)
    requires latest(r.secrets).Some?
    ensures latest(r.secrets).value !in Proposed(profile, r, facts, latest).forget
  {
    ForgetExactly(profile, r, facts, latest, latest(r.secrets).value);
  }

  /** After an executed proposal the chronology is still whole and the current epoch is the same. */
  lemma ExecutionKeepsChronology(profile: Profile, r: Ring, facts: Facts, latest: Latest)
    requires Lawful(latest) && Chronicled(r) && Blockers(profile, r, facts, latest) == []
    ensures var forget := Proposed(profile, r, facts, latest).forget;
            var t := ForgottenAll(r, forget);
            && t.secrets == r.secrets - Members(forget)
            && latest(t.secrets) == latest(r.secrets)
            && OldestFirst(t, latest) == Some(Kept(r.installed, r.secrets.Keys - Members(forget)))
  {
    BlockersExactly(profile, r, facts, latest);
    var forget := Proposed(profile, r, facts, latest).forget;
    var t := ForgottenAll(r, forget);
    ForgottenAllIs(r, forget);
    CurrentIsKept(profile, r, facts, latest);
    LatestStays(r.secrets, latest, forget);
    ForgottenAllChronicled(r, forget);
    ChronicledOrder(r, latest);
    assert r.secrets != map[];
    assert r.installed != [];
    assert latest(r.secrets) == Some(r.installed[|r.installed| - 1]);
    ChronicledOrder(t, latest);
  }

  lemma {:induction false} ForgottenAllChronicled(r: Ring, forget: seq<Epoch>)
    requires Chronicled(r)
    ensures Chronicled(ForgottenAll(r, forget))
    decreases |forget|
  {
    if forget != [] {
      ForgottenAllChronicled(r, forget[..|forget| - 1]);
      ForgetKeepsChronicle(ForgottenAll(r, forget[..|forget| - 1]), forget[|forget| - 1]);
    }
  }

  /** What is free once a proposal is carried out was free before. */
  lemma FreeWasFree(profile: Profile, r: Ring, facts: Facts, latest: Latest, j: nat) returns (i: nat)
    requires Lawful(latest) && Chronicled(r) && Unblocked(profile, r, facts, latest)
    requires var forget := Proposed(profile, r, facts, latest).forget;
             var t := ForgottenAll(r, forget);
             && latest(t.secrets) == latest(r.secrets)
             && OldestFirst(t, latest) == Some(Kept(r.installed, r.secrets.Keys - Members(forget)))
             && j < |Ordered(t, latest)| && Free(profile, t, facts, latest, j)
    ensures i < |Ordered(r, latest)| && Free(profile, r, facts, latest, i)
    ensures Ordered(r, latest)[i]
            == Ordered(ForgottenAll(r, Proposed(profile, r, facts, latest).forget), latest)[j]
  {
    i := KeptPosition(r.installed, r.secrets.Keys - Members(Proposed(profile, r, facts, latest).forget), j);
    ChronicledOrder(r, latest);
  }

  /** Proposing again after carrying a proposal out finds nothing left to forget. */
  lemma PruningIsDone(profile: Profile, r: Ring, facts: Facts, latest: Latest)
    requires Lawful(latest) && Chronicled(r) && Blockers(profile, r, facts, latest) == []
    ensures Proposed(profile, ForgottenAll(r, Proposed(profile, r, facts, latest).forget), facts, latest).forget == []
  {
    var forget := Proposed(profile, r, facts, latest).forget;
    var t := ForgottenAll(r, forget);
    ExecutionKeepsChronology(profile, r, facts, latest);
    BlockersExactly(profile, r, facts, latest);
    var again := Proposed(profile, t, facts, latest).forget;
    if again != [] {
      var e := again[0];
      ForgetExactly(profile, t, facts, latest, e);
      var j :| 0 <= j < |Ordered(t, latest)| && Ordered(t, latest)[j] == e && Free(profile, t, facts, latest, j);
      var i := FreeWasFree(profile, r, facts, latest, j);
      ForgetExactly(profile, r, facts, latest, e);
      assert false;
    }
  }
}

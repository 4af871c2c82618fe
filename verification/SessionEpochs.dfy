/**
 What a group session's frames do to its keyring: which epochs they add and in what order, and
 exactly when an authentic frame that is next in sequence is still refused.
 */
module SessionEpochs {
  import opened Wrappers
  import opened Epochs
  import opened GroupSession
  import opened GroupRuns
  import StableSort

  // ---------- Installing secrets ----------

  lemma {:induction false} InstallTwice(r: Ring, a: seq<Secret>, b: seq<Secret>)
    ensures InstallSecrets(r, a + b) == InstallSecrets(InstallSecrets(r, a), b)
    decreases |b|
  {
    if b == [] {
      assert a + b == a;
    } else {
      assert (a + b)[..|a + b| - 1] == a + b[..|b| - 1];
      InstallTwice(r, a, b[..|b| - 1]);
    }
  }

  /** The chronology grows by the new epochs, in the order they came, and stays exact. */
  lemma {:induction false} InstallAppends(r: Ring, secrets: seq<Secret>)
    requires Chronicled(r)
    ensures var t := InstallSecrets(r, secrets);
            && Chronicled(t) && t.orderVersion == r.orderVersion
            && t.installed == if r.orderVersion == 1 then r.installed + NewEpochs(r, secrets) else r.installed
    decreases |secrets|
  {
    if secrets != [] {
      var front, last := secrets[..|secrets| - 1], secrets[|secrets| - 1];
      InstallAppends(r, front);
      InstallKeepsChronicle(InstallSecrets(r, front), last.epoch, last.timestamp);
      assert r.installed + NewEpochs(r, secrets)
          == r.installed + NewEpochs(r, front)
              + (if last.epoch in InstallSecrets(r, front).secrets then [] else [last.epoch]);
    } else {
      assert r.installed + [] == r.installed;
    }
  }

  /** The newest epoch of the chronology is still the one the engine calls the latest. */
  ghost predicate NewestIsLatest(r: Ring, secrets: seq<Secret>, latest: Latest) {
    var added := NewEpochs(r, secrets);
    r.orderVersion == 1 ==>
      latest(InstallSecrets(r, secrets).secrets) == if added == [] then latest(r.secrets) else Newest(added)
  }

  lemma NewestOfBoth(a: seq<Epoch>, b: seq<Epoch>)
    ensures Newest(a + b) == if b == [] then Newest(a) else Newest(b)
  {
    if b == [] { assert a + b == a; }
  }

  lemma ValidAfterInstallIff(r: Ring, secrets: seq<Secret>, latest: Latest)
    requires Chronicled(r) && KeyringValid(r, latest)
    ensures KeyringValid(InstallSecrets(r, secrets), latest) <==> NewestIsLatest(r, secrets, latest)
  {
    InstallAppends(r, secrets);
    if r.orderVersion == 1 {
      OrderKnownIff(r, latest);
      OrderKnownIff(InstallSecrets(r, secrets), latest);
      NewestOfBoth(r.installed, NewEpochs(r, secrets));
    }
  }

  // ---------- Acceptance ----------

  /**
   A frame is accepted exactly when the session is sound, none of the checks on the frame refuses
   it, the engine takes it, its sequence number is not the last one, and the epochs it brings end
   with the latest.
   */
  lemma AcceptedIff(e: Engine, s: Session, root: Root, c: Control, d: Option<Direct>)
    requires Bound(s) && Chronicled(s.keyring)
    ensures Processes(e, s, root, c, d).Ok? <==>
            && KeyringValid(s.keyring, e.latest)
            && Refusal(e, s, root, c, d).None?
            && Answer(e, s, c, d).Some? && c.id.sequence < U64_MAX
            && NewestIsLatest(s.keyring, Arranged(Answer(e, s, c, d).value.output), e.latest)
  {
    if KeyringValid(s.keyring, e.latest) && Inner(e, s, root, c, d).Ok? {
      InnerKeepsBound(e, s, root, c, d);
      ValidAfterInstallIff(s.keyring, Arranged(Answer(e, s, c, d).value.output), e.latest);
    }
  }

  /** One new epoch that is not the latest: refused though in sequence, authentic and taken by the engine. */
  lemma StaleEpochRefused(e: Engine, s: Session, root: Root, c: Control, d: Option<Direct>, secret: Secret)
    requires Bound(s) && Chronicled(s.keyring) && s.keyring.orderVersion == 1
    requires Refusal(e, s, root, c, d).None? && Answer(e, s, c, d).Some? && c.id.sequence < U64_MAX
    requires Answer(e, s, c, d).value.output == One(secret) && secret.epoch !in s.keyring.secrets
    ensures Processes(e, s, root, c, d).Ok? <==>
            && KeyringValid(s.keyring, e.latest)
            && e.latest(s.keyring.secrets[secret.epoch := secret.timestamp]) == Some(secret.epoch)
    ensures Processes(e, s, root, c, d).Err? ==> Processes(e, s, root, c, d).error == InvalidState
  {
    AcceptedIff(e, s, root, c, d);
    assert [secret][..0] == [];
    assert InstallSecrets(s.keyring, [secret]) == Installed(s.keyring, secret.epoch, secret.timestamp);
    assert NewEpochs(s.keyring, [secret]) == [secret.epoch];
  }

  // ---------- Sessions that no longer validate ----------

  /** A session that fails its own validation never changes again, whatever it is asked. */
  lemma {:induction false} UnsoundIsStuck(e: Engine, s: Session, steps: seq<Step>)
    requires !Validates(e, s)
    ensures AfterAll(e, s, steps) == s && Log(e, s, steps) == []
    decreases |steps|
  {
    if steps != [] {
      assert After(e, s, steps[0]) == s && Accepted(e, s, steps[0]) == [];
      UnsoundIsStuck(e, s, steps[1..]);
      AfterAllFirst(e, s, steps);
      assert Moves(e, s, steps)[1..] == Moves(e, s, steps[1..]);
    }
  }

  // ---------- Local operations are not validated at the end ----------

  /** Everything a local operation installs: its own rotation, then what its own frame hands over. */
  function LocalSecrets(e: Engine, s: Session, action: Action): seq<Secret>
    requires Locally(e, s, action).Ok?
  {
    var answer := Answer(e, Drafted(e, s, action).value.session, OwnFrame(s, action), None);
    (if action.Add? then [] else [e.generate(s.keyring).value]) + Arranged(answer.value.output)
  }

  lemma LocalKeyring(e: Engine, s: Session, action: Action)
    requires Locally(e, s, action).Ok?
    ensures Locally(e, s, action).value.next.keyring == InstallSecrets(s.keyring, LocalSecrets(e, s, action))
  {
    var draft := Drafted(e, s, action).value.session;
    var answer := Answer(e, draft, OwnFrame(s, action), None);
    var first := if action.Add? then [] else [e.generate(s.keyring).value];
    InstallTwice(s.keyring, first, Arranged(answer.value.output));
    if !action.Add? {
      assert first[..0] == [];
      assert InstallSecrets(s.keyring, first) == draft.keyring;
    }
  }

  /** An accepted local operation leaves a session that can go on exactly when its epochs end with the latest. */
  lemma UsableAfterLocalIff(e: Engine, s: Session, action: Action)
    requires Bound(s) && Chronicled(s.keyring) && Locally(e, s, action).Ok?
    ensures Validates(e, Locally(e, s, action).value.next) <==>
            NewestIsLatest(s.keyring, LocalSecrets(e, s, action), e.latest)
  {
    LocallyKeepsBound(e, s, action);
    LocalKeyring(e, s, action);
    ValidAfterInstallIff(s.keyring, LocalSecrets(e, s, action), e.latest);
  }

  /** What a step installs in the keyring; nothing when it is refused. */
  function Installs(e: Engine, s: Session, step: Step): seq<Secret> {
    match step
    case Register(_) => []
    case Do(action) => if Locally(e, s, action).Ok? then LocalSecrets(e, s, action) else []
    case Receive(root, c, d) =>
      if Processes(e, s, root, c, d).Ok? then Arranged(Answer(e, s, c, d).value.output) else []
  }

  lemma StepInstalls(e: Engine, s: Session, step: Step)
    ensures After(e, s, step).keyring == InstallSecrets(s.keyring, Installs(e, s, step))
  {
    if step.Do? && Locally(e, s, step.action).Ok? { LocalKeyring(e, s, step.action); }
  }

  /** The chronology is exact throughout every run. */
  lemma {:induction false} RunKeepsChronicle(e: Engine, s: Session, steps: seq<Step>)
    requires Chronicled(s.keyring)
    ensures Chronicled(AfterAll(e, s, steps).keyring)
    decreases |steps|
  {
    if steps != [] {
      StepInstalls(e, s, steps[0]);
      InstallAppends(s.keyring, Installs(e, s, steps[0]));
      RunKeepsChronicle(e, After(e, s, steps[0]), steps[1..]);
      AfterAllFirst(e, s, steps);
    }
  }

  // ---------- What a welcome teaches ----------

  /** A bundle installs and reports the same whatever order its secrets come in. */
  lemma BundleOrderIsNoMatter(r: Ring, a: seq<Secret>, b: seq<Secret>)
    requires multiset(a) == multiset(b)
    ensures Arranged(Bundle(a)) == Arranged(Bundle(b)) && Learned(r, Bundle(a)) == Learned(r, Bundle(b))
  {
    var listing := StableSort.Sort(OLDER, a);
    StableSort.SortAdds(OLDER, a);
    StableSort.SortOrders(OLDER, a);
    forall i, j | 0 <= i < |listing| && 0 <= j < |listing| && OLDER(listing[i], listing[j])
        && OLDER(listing[j], listing[i])
      ensures listing[i] == listing[j]
    {
      assert listing[i].timestamp == listing[j].timestamp && listing[i].epoch == listing[j].epoch;
    }
    StableSort.SortIs(OLDER, b, listing);
  }

  ghost predicate DistinctEpochs(secrets: seq<Secret>) {
    forall i, j :: 0 <= i < j < |secrets| ==> secrets[i].epoch != secrets[j].epoch
  }

  /** A listing of epochs, by the timestamps the ring holds for them. */
  ghost predicate OldestFirstIn(epochs: seq<Epoch>, secrets: Secrets) {
    && Distinct(epochs)
    && (forall k :: 0 <= k < |epochs| ==> epochs[k] in secrets)
    && (forall i, j :: 0 <= i < j < |epochs| ==> secrets[epochs[i]] <= secrets[epochs[j]])
  }

  ghost predicate Held(secrets: seq<Secret>, epoch: Epoch) {
    exists i :: 0 <= i < |secrets| && secrets[i].epoch == epoch
  }

  lemma HeldNext(secrets: seq<Secret>, epoch: Epoch)
    requires secrets != []
    ensures Held(secrets, epoch) <==> Held(secrets[..|secrets| - 1], epoch) || secrets[|secrets| - 1].epoch == epoch
  {
    var front := secrets[..|secrets| - 1];
    if Held(secrets, epoch) {
      var i :| 0 <= i < |secrets| && secrets[i].epoch == epoch;
      if i < |front| { assert front[i].epoch == epoch; }
    }
    if Held(front, epoch) {
      var i :| 0 <= i < |front| && front[i].epoch == epoch;
      assert secrets[i].epoch == epoch;
    }
  }

  lemma {:induction false} InstallHolds(r: Ring, secrets: seq<Secret>, epoch: Epoch)
    ensures epoch in InstallSecrets(r, secrets).secrets <==> epoch in r.secrets || Held(secrets, epoch)
    ensures epoch in NewEpochs(r, secrets) <==> epoch !in r.secrets && Held(secrets, epoch)
    decreases |secrets|
  {
    if secrets != [] {
      HeldNext(secrets, epoch);
      InstallHolds(r, secrets[..|secrets| - 1], epoch);
    }
  }

  lemma {:induction false} InstallStamps(r: Ring, secrets: seq<Secret>, i: nat)
    requires DistinctEpochs(secrets) && i < |secrets|
    ensures var t := InstallSecrets(r, secrets).secrets;
            secrets[i].epoch in t && t[secrets[i].epoch] == secrets[i].timestamp
    decreases |secrets|
  {
    if i < |secrets| - 1 { InstallStamps(r, secrets[..|secrets| - 1], i); }
  }

  /** The listing so far, with one more secret that is not older than any before it. */
  lemma ListingGrows(epochs: seq<Epoch>, before: Secrets, last: Secret)
    requires OldestFirstIn(epochs, before) && last.epoch !in epochs
    requires forall k :: 0 <= k < |epochs| ==> before[epochs[k]] <= last.timestamp
    ensures OldestFirstIn(epochs, before[last.epoch := last.timestamp])
    ensures OldestFirstIn(epochs + [last.epoch], before[last.epoch := last.timestamp])
  {
  }

  lemma {:induction false} NewEpochsOldestFirst(r: Ring, secrets: seq<Secret>)
    requires DistinctEpochs(secrets) && StableSort.InOrder(OLDER, secrets)
    ensures OldestFirstIn(NewEpochs(r, secrets), InstallSecrets(r, secrets).secrets)
    decreases |secrets|
  {
    if secrets != [] {
      var front, last := secrets[..|secrets| - 1], secrets[|secrets| - 1];
      NewEpochsOldestFirst(r, front);
      var epochs, before := NewEpochs(r, front), InstallSecrets(r, front).secrets;
      forall k | 0 <= k < |epochs| ensures epochs[k] != last.epoch && before[epochs[k]] <= last.timestamp {
        InstallHolds(r, front, epochs[k]);
        var i :| 0 <= i < |front| && front[i].epoch == epochs[k];
        InstallStamps(r, front, i);
        assert OLDER(secrets[i], last);
      }
      ListingGrows(epochs, before, last);
    }
  }

  lemma {:induction false} OnceAtMost(a: seq<Secret>, x: Secret)
    requires DistinctEpochs(a)
    ensures multiset(a)[x] <= 1
  {
    if a != [] {
      assert a == [a[0]] + a[1..];
      OnceAtMost(a[1..], x);
      if x == a[0] { assert x !in a[1..]; }
    }
  }

  lemma TwoPlacesCount(b: seq<Secret>, i: nat, j: nat)
    requires i < j < |b| && b[i] == b[j]
    ensures multiset(b)[b[i]] >= 2
  {
    assert b == b[..j] + b[j..] && b[..j][i] == b[i] && b[j..][0] == b[j];
    assert b[i] in multiset(b[..j]) && b[i] in multiset(b[j..]);
  }

  lemma SortedStayDistinct(a: seq<Secret>, b: seq<Secret>)
    requires DistinctEpochs(a) && multiset(a) == multiset(b)
    ensures DistinctEpochs(b)
  {
    forall i, j | 0 <= i < j < |b| ensures b[i].epoch != b[j].epoch {
      OnceAtMost(a, b[i]);
      if b[i] == b[j] { TwoPlacesCount(b, i, j); }
      var p := PlaceOf(a, b[i]);
      var q := PlaceOf(a, b[j]);
    }
  }

  lemma PlaceOf(a: seq<Secret>, x: Secret) returns (p: nat)
    requires x in multiset(a)
    ensures p < |a| && a[p] == x
  {
    p :| 0 <= p < |a| && a[p] == x;
  }

  lemma SameHeld(a: seq<Secret>, b: seq<Secret>, epoch: Epoch)
    requires multiset(a) == multiset(b)
    ensures Held(a, epoch) <==> Held(b, epoch)
  {
    if Held(a, epoch) {
      var i :| 0 <= i < |a| && a[i].epoch == epoch;
      var k := PlaceOf(b, a[i]);
      assert b[k].epoch == epoch;
    }
    if Held(b, epoch) {
      var i :| 0 <= i < |b| && b[i].epoch == epoch;
      var k := PlaceOf(a, b[i]);
      assert a[k].epoch == epoch;
    }
  }

  lemma {:induction false} NewEpochsOnce(r: Ring, secrets: seq<Secret>, epoch: Epoch)
    ensures multiset(NewEpochs(r, secrets))[epoch] <= 1
    decreases |secrets|
  {
    if secrets != [] {
      var front, last := secrets[..|secrets| - 1], secrets[|secrets| - 1];
      NewEpochsOnce(r, front, epoch);
      InstallHolds(r, front, last.epoch);
      assert last.epoch in NewEpochs(r, front) ==> last.epoch in InstallSecrets(r, front).secrets;
    }
  }

  /** What any frame reports, once each: its one epoch, new or not; or those of its bundle the keyring lacked. */
  lemma ReportsEpochs(r: Ring, output: Output, epoch: Epoch)
    ensures epoch in Learned(r, output)
            <==> match output
                 case Nothing => false
                 case One(secret) => epoch == secret.epoch
                 case Bundle(secrets) => epoch !in r.secrets && Held(secrets, epoch)
    ensures multiset(Learned(r, output))[epoch] <= 1
  {
    if output.Bundle? {
      var sorted := Arranged(output);
      StableSort.SortAdds(OLDER, output.secrets);
      SameHeld(output.secrets, sorted, epoch);
      InstallHolds(r, sorted, epoch);
      NewEpochsOnce(r, sorted, epoch);
    }
  }

  /** The epochs a welcome reports: those of the bundle the keyring lacked, once each, oldest first. */
  lemma WelcomeReportsOldestFirst(r: Ring, bundle: seq<Secret>)
    requires DistinctEpochs(bundle)
    ensures forall epoch :: epoch in Learned(r, Bundle(bundle)) <==> epoch !in r.secrets && Held(bundle, epoch)
    ensures OldestFirstIn(Learned(r, Bundle(bundle)), InstallSecrets(r, Arranged(Bundle(bundle))).secrets)
  {
    var sorted := Arranged(Bundle(bundle));
    StableSort.SortAdds(OLDER, bundle);
    StableSort.SortOrders(OLDER, bundle);
    SortedStayDistinct(bundle, sorted);
    NewEpochsOldestFirst(r, sorted);
    forall epoch ensures epoch in NewEpochs(r, sorted) <==> epoch !in r.secrets && Held(bundle, epoch) {
      InstallHolds(r, sorted, epoch);
      SameHeld(bundle, sorted, epoch);
    }
  }
}

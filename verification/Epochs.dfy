/**
 Data-encryption epochs: the keyring of crates/stickleback/src/group_crypto.rs and the pruning
 proposal of crates/stickleback/src/epoch_retention.rs. The secret bundle belongs to a library; of
 it the model keeps the identifiers with their timestamps and a function that names the latest.
 */
module Epochs {
  import opened Wrappers
  import StableSort

  type Epoch = nat
  type Secrets = map<Epoch, nat>
  type Latest = Secrets -> Option<Epoch>

  /** The latest secret is one of them, and forgetting an older one does not change which it is. */
  ghost predicate Lawful(latest: Latest) {
    && (forall s :: latest(s).None? <==> s == map[])
    && (forall s :: latest(s).Some? ==> latest(s).value in s)
    && (forall s, e: Epoch :: latest(s) != Some(e) ==> latest(s - {e}) == latest(s))
  }

  datatype Ring = Ring(secrets: Secrets, orderVersion: nat, installed: seq<Epoch>)

  datatype Secret = Secret(epoch: Epoch, timestamp: nat)

  ghost predicate Distinct(s: seq<Epoch>) {
    forall i, j :: 0 <= i < j < |s| ==> s[i] != s[j]
  }

  function Members(s: seq<Epoch>): set<Epoch> {
    set e | e in s
  }

  /** The chronology records exactly the epochs that are present, once each. */
  ghost predicate Chronicled(r: Ring) {
    r.orderVersion == 1 ==> Distinct(r.installed) && Members(r.installed) == r.secrets.Keys
  }

  // ---------- The keyring's operations ----------

  function Installed(r: Ring, e: Epoch, timestamp: nat): Ring {
    Ring(r.secrets[e := timestamp], r.orderVersion,
         if e !in r.secrets && r.orderVersion == 1 then r.installed + [e] else r.installed)
  }

  const OLDER: (Secret, Secret) -> bool :=
    (a: Secret, b: Secret) => a.timestamp < b.timestamp || (a.timestamp == b.timestamp && a.epoch <= b.epoch)

  function InstallSecrets(r: Ring, secrets: seq<Secret>): Ring
    decreases |secrets|
  {
    if secrets == [] then r
    else
      var last := secrets[|secrets| - 1];
      Installed(InstallSecrets(r, secrets[..|secrets| - 1]), last.epoch, last.timestamp)
  }

  /** The epochs among the secrets that the ring did not hold, each where it first comes. */
  function NewEpochs(r: Ring, secrets: seq<Secret>): seq<Epoch>
    decreases |secrets|
  {
    if secrets == [] then []
    else
      var front, last := secrets[..|secrets| - 1], secrets[|secrets| - 1];
      NewEpochs(r, front) + if last.epoch in InstallSecrets(r, front).secrets then [] else [last.epoch]
  }

  /** The sequence without any occurrence of one epoch. */
  function Without(s: seq<Epoch>, e: Epoch): (r: seq<Epoch>)
    ensures forall x :: x in r <==> x in s && x != e
  {
    if s == [] then [] else if s[0] == e then Without(s[1..], e) else [s[0]] + Without(s[1..], e)
  }

  function Forgotten(r: Ring, e: Epoch): Ring {
    Ring(r.secrets - {e}, r.orderVersion,
         if e in r.secrets && r.orderVersion == 1 then Without(r.installed, e) else r.installed)
  }

  function Newest(installed: seq<Epoch>): Option<Epoch> {
    if installed == [] then None else Some(installed[|installed| - 1])
  }

  /** Installation order, oldest first; `None` for a legacy or inconsistent chronology. */
  function OldestFirst(r: Ring, latest: Latest): Option<seq<Epoch>> {
    if r.orderVersion != 1
       || |r.installed| != |r.secrets|
       || (exists i :: 0 <= i < |r.installed| && r.installed[i] !in r.secrets)
       || Newest(r.installed) != latest(r.secrets)
    then None else Some(r.installed)
  }

  class DataKeyring {
    var secrets: Secrets
    var orderVersion: nat
    var installed: seq<Epoch>

    function State(): Ring
      reads this
    {
      Ring(secrets, orderVersion, installed)
    }

    constructor ()
      ensures State() == Ring(map[], 1, []) && Chronicled(State())
    {
      secrets, orderVersion, installed := map[], 1, [];
    }

    constructor Restore(image: Ring)
      ensures State() == image
    {
      secrets, orderVersion, installed := image.secrets, image.orderVersion, image.installed;
    }

    method Install(e: Epoch, timestamp: nat)
      modifies this
      ensures State() == Installed(old(State()), e, timestamp)
      ensures old(Chronicled(State())) ==> Chronicled(State())
    {
      if Chronicled(State()) { InstallKeepsChronicle(State(), e, timestamp); }
      var wasPresent := e in secrets;
      secrets := secrets[e := timestamp];
      if !wasPresent && orderVersion == 1 {
        installed := installed + [e];
      }
    }

    /** A welcome's bundle, by timestamp and then identifier; reports the epochs that were not there. */
    method InstallBundle(bundle: seq<Secret>) returns (epochs: seq<Epoch>)
      modifies this
      ensures State() == InstallSecrets(old(State()), StableSort.Sort(OLDER, bundle))
      ensures epochs == NewEpochs(old(State()), StableSort.Sort(OLDER, bundle))
    {
      var sorted := StableSort.Sort(OLDER, bundle);
      epochs := [];
      for i := 0 to |sorted|
        invariant State() == InstallSecrets(old(State()), sorted[..i])
        invariant epochs == NewEpochs(old(State()), sorted[..i])
      {
        assert sorted[..i + 1][..i] == sorted[..i];
        if sorted[i].epoch !in secrets {
          epochs := epochs + [sorted[i].epoch];
        }
        Install(sorted[i].epoch, sorted[i].timestamp);
      }
      assert sorted[..|sorted|] == sorted;
    }

    method ForgetAuthorized(e: Epoch) returns (removed: bool)
      modifies this
      ensures State() == Forgotten(old(State()), e)
      ensures removed == (e in old(secrets))
      ensures old(Chronicled(State())) ==> Chronicled(State())
    {
      if Chronicled(State()) { ForgetKeepsChronicle(State(), e); }
      removed := e in secrets;
      secrets := secrets - {e};
      if removed && orderVersion == 1 {
        installed := Without(installed, e);
      }
    }

    /** Carrying out a reviewed proposal: every listed epoch must still be there to be removed. */
    method ForgetAll(forget: seq<Epoch>) returns (ok: bool)
      requires Chronicled(State())
      modifies this
      ensures Chronicled(State())
      ensures ok <==> Distinct(forget) && Members(forget) <= old(secrets).Keys
      ensures ok ==> State() == ForgottenAll(old(State()), forget)
    {
      ghost var start := State();
      assert forget[..0] == [];
      for i := 0 to |forget|
        invariant State() == ForgottenAll(start, forget[..i]) && Chronicled(State())
        invariant Distinct(forget[..i]) && Members(forget[..i]) <= start.secrets.Keys
        invariant secrets.Keys == start.secrets.Keys - Members(forget[..i])
      {
        assert forget[..i + 1][..i] == forget[..i] && forget[..i + 1][i] == forget[i];
        var removed := ForgetAuthorized(forget[i]);
        if !removed {
          assert forget[i] in forget[..i] || forget[i] !in start.secrets;
          assert forget[i] in Members(forget);
          return false;
        }
        MembersGrow(forget, i);
      }
      assert forget[..|forget|] == forget;
      ok := true;
    }
  }

  lemma MembersGrow(s: seq<Epoch>, i: nat)
    requires i < |s|
    ensures Members(s[..i + 1]) == Members(s[..i]) + {s[i]}
  {
    assert s[..i + 1] == s[..i] + [s[i]];
  }

  function ForgottenAll(r: Ring, forget: seq<Epoch>): Ring
    decreases |forget|
  {
    if forget == [] then r else Forgotten(ForgottenAll(r, forget[..|forget| - 1]), forget[|forget| - 1])
  }

  lemma InstallKeepsChronicle(r: Ring, e: Epoch, timestamp: nat)
    requires Chronicled(r)
    ensures Chronicled(Installed(r, e, timestamp))
  {
    var t := Installed(r, e, timestamp);
    if r.orderVersion == 1 && e !in r.secrets {
      assert e !in Members(r.installed);
      assert Members(r.installed + [e]) == Members(r.installed) + {e};
    }
  }

  lemma {:induction false} WithoutDistinct(s: seq<Epoch>, e: Epoch)
    requires Distinct(s)
    ensures Distinct(Without(s, e))
  {
    if s != [] {
      WithoutDistinct(s[1..], e);
      var rest := Without(s[1..], e);
      forall k | 0 <= k < |rest| ensures rest[k] != s[0] {
        assert rest[k] in rest;
      }
    }
  }

  lemma ForgetKeepsChronicle(r: Ring, e: Epoch)
    requires Chronicled(r)
    ensures Chronicled(Forgotten(r, e))
  {
    if r.orderVersion == 1 { WithoutDistinct(r.installed, e); }
  }

  lemma SubsetOfSameSize(a: set<Epoch>, b: set<Epoch>)
    requires a <= b && |a| == |b|
    ensures a == b
  {
    assert |b - a| == 0;
  }

  lemma {:induction false} DistinctSize(s: seq<Epoch>)
    ensures |Members(s)| <= |s|
    ensures |Members(s)| == |s| <==> Distinct(s)
  {
    if s != [] {
      var front, last := s[..|s| - 1], s[|s| - 1];
      DistinctSize(front);
      assert s == front + [last];
      assert Members(s) == Members(front) + {last};
      if last in front {
        var i :| 0 <= i < |front| && front[i] == last;
        assert s[i] == s[|s| - 1];
      }
    }
  }

  lemma OrderKnownIff(r: Ring, latest: Latest)
    requires Chronicled(r) && r.orderVersion == 1
    ensures OldestFirst(r, latest).Some? <==> Newest(r.installed) == latest(r.secrets)
  {
    DistinctSize(r.installed);
    assert |r.secrets| == |r.secrets.Keys|;
    assert forall i :: 0 <= i < |r.installed| ==> r.installed[i] in Members(r.installed);
  }

  /** For a keyring built by its operations the order is known exactly when the newest install is current. */
  lemma ChronicledOrder(r: Ring, latest: Latest)
    requires Lawful(latest) && Chronicled(r) && r.orderVersion == 1
    ensures OldestFirst(r, latest).Some?
            <==> (r.installed == [] || latest(r.secrets) == Some(r.installed[|r.installed| - 1]))
  {
    OrderKnownIff(r, latest);
    if r.installed == [] {
      assert r.secrets.Keys == {};
      assert r.secrets == map[];
    }
  }
}

/**
 What a refused frame means for the rest of a group session's life: its author stands still until
 that very frame is accepted, and a frame whose one epoch is older than one already held is
 accepted only after something else has brought that epoch in company.
 */
module SessionStalls {
  import opened Wrappers
  import opened Epochs
  import opened GroupSession
  import opened GroupRuns
  import opened SessionEpochs

  // ---------- An author stands still ----------

  /** The frame this author is awaited with, or, before any was heard, one that brings this member in. */
  ghost predicate Awaited(s: Session, author: Id, c: Control) {
    c.id.author == author && (c.id.sequence == Expected(s, author) || Joining(s, c))
  }

  lemma {:induction false} FromAuthorHolds(log: seq<Control>, author: Id, c: Control)
    ensures c in FromAuthor(log, author) <==> c in log && c.id.author == author
  {
    if log != [] { FromAuthorHolds(log[1..], author, c); }
  }

  /**
   In every run, whatever else is registered, performed or received, nothing is accepted from an
   author exactly when the frame awaited from it is not; and then its counter stands.
   */
  lemma AuthorStalls(e: Engine, s: Session, steps: seq<Step>, author: Id)
    requires Bound(s)
    ensures FromAuthor(Log(e, s, steps), author) == []
            <==> forall c :: c in Log(e, s, steps) ==> !Awaited(s, author, c)
    ensures FromAuthor(Log(e, s, steps), author) == [] ==>
              Expected(AfterAll(e, s, steps), author) == Expected(s, author)
  {
    var log := Log(e, s, steps);
    var own := FromAuthor(log, author);
    SequencesConsecutive(e, s, steps, author);
    forall c ensures c in own <==> c in log && c.id.author == author { FromAuthorHolds(log, author, c); }
    if own != [] { assert own[0] in own && Awaited(s, author, own[0]); }
  }

  // ---------- Epochs older than one that is held ----------

  /** The latest secret is one with the greatest timestamp. */
  ghost predicate NamesGreatest(latest: Latest) {
    forall s: Secrets :: latest(s).Some? ==> latest(s).value in s && forall x :: x in s ==> s[x] <= s[latest(s).value]
  }

  type Clock = Epoch -> nat

  ghost predicate Timed(clock: Clock, secrets: seq<Secret>) {
    forall i :: 0 <= i < |secrets| ==> secrets[i].timestamp == clock(secrets[i].epoch)
  }

  ghost predicate RingTimed(clock: Clock, r: Ring) {
    forall x :: x in r.secrets ==> r.secrets[x] == clock(x)
  }

  /** Every secret the engine hands over has the timestamp that belongs to its epoch. */
  ghost predicate EngineTimed(clock: Clock, e: Engine) {
    && (forall r :: e.generate(r).Some? ==> e.generate(r).value.timestamp == clock(e.generate(r).value.epoch))
    && (forall crypto, c, m :: e.process(crypto, c, m).Some? ==>
          Timed(clock, Arranged(e.process(crypto, c, m).value.output)))
  }

  ghost predicate Outdated(r: Ring, secret: Secret) {
    exists x :: x in r.secrets && secret.timestamp < r.secrets[x]
  }

  lemma {:induction false} InstallKeepsTimes(clock: Clock, r: Ring, secrets: seq<Secret>)
    requires RingTimed(clock, r) && Timed(clock, secrets)
    ensures RingTimed(clock, InstallSecrets(r, secrets)) && r.secrets.Keys <= InstallSecrets(r, secrets).secrets.Keys
    ensures InstallSecrets(r, secrets).orderVersion == r.orderVersion
    decreases |secrets|
  {
    if secrets != [] { InstallKeepsTimes(clock, r, secrets[..|secrets| - 1]); }
  }

  lemma InstallsTimed(clock: Clock, e: Engine, s: Session, step: Step)
    requires EngineTimed(clock, e)
    ensures Timed(clock, Installs(e, s, step))
  {
    if step.Do? && Locally(e, s, step.action).Ok? {
      var answer := Answer(e, Drafted(e, s, step.action).value.session, OwnFrame(s, step.action), None);
      assert Timed(clock, Arranged(answer.value.output));
    }
  }

  /** A sound record of a session that lacks an epoch older than one it holds. */
  ghost predicate Behind(clock: Clock, e: Engine, s: Session, secret: Secret) {
    && NamesGreatest(e.latest) && EngineTimed(clock, e) && secret.timestamp == clock(secret.epoch)
    && Bound(s) && Chronicled(s.keyring) && s.keyring.orderVersion == 1 && RingTimed(clock, s.keyring)
    && Outdated(s.keyring, secret)
  }

  lemma StepStaysBehind(clock: Clock, e: Engine, s: Session, step: Step, secret: Secret)
    requires Behind(clock, e, s, secret)
    ensures Behind(clock, e, After(e, s, step), secret)
  {
    StepApplies(e, s, step);
    StepInstalls(e, s, step);
    InstallsTimed(clock, e, s, step);
    InstallAppends(s.keyring, Installs(e, s, step));
    InstallKeepsTimes(clock, s.keyring, Installs(e, s, step));
    var x :| x in s.keyring.secrets && secret.timestamp < s.keyring.secrets[x];
    assert x in After(e, s, step).keyring.secrets;
  }

  lemma {:induction false} StaysBehind(clock: Clock, e: Engine, s: Session, steps: seq<Step>, secret: Secret)
    requires Behind(clock, e, s, secret)
    ensures Behind(clock, e, AfterAll(e, s, steps), secret)
    decreases |steps|
  {
    if steps != [] {
      StepStaysBehind(clock, e, s, steps[0], secret);
      StaysBehind(clock, e, After(e, s, steps[0]), steps[1..], secret);
      AfterAllFirst(e, s, steps);
    }
  }

  lemma OneInstalled(r: Ring, secret: Secret)
    ensures InstallSecrets(r, [secret]) == Installed(r, secret.epoch, secret.timestamp)
    ensures NewEpochs(r, [secret]) == if secret.epoch in r.secrets then [] else [secret.epoch]
  {
    assert [secret][..0] == [];
  }

  /** An outdated epoch by itself keeps the keyring valid exactly when it is held already. */
  lemma AloneOnlyIfHeld(clock: Clock, e: Engine, s: Session, secret: Secret)
    requires Behind(clock, e, s, secret)
    ensures NewestIsLatest(s.keyring, [secret], e.latest) <==> secret.epoch in s.keyring.secrets
  {
    OneInstalled(s.keyring, secret);
    var t := s.keyring.secrets[secret.epoch := secret.timestamp];
    if secret.epoch in s.keyring.secrets {
      assert t == s.keyring.secrets;
    } else {
      var x :| x in s.keyring.secrets && secret.timestamp < s.keyring.secrets[x];
      assert t[secret.epoch] < t[x];
    }
  }

  /**
   At every later moment of every run, a frame that hands over just that epoch is accepted exactly
   when nothing else is wrong with it and the epoch has come in by another way.
   */
  lemma OutdatedAcceptedIff(clock: Clock, e: Engine, s: Session, steps: seq<Step>,
                            root: Root, c: Control, d: Option<Direct>, secret: Secret)
    requires Behind(clock, e, s, secret)
    requires var answer := Answer(e, AfterAll(e, s, steps), c, d); answer.Some? && answer.value.output == One(secret)
    ensures var t := AfterAll(e, s, steps);
            Processes(e, t, root, c, d).Ok? <==>
            && KeyringValid(t.keyring, e.latest) && Refusal(e, t, root, c, d).None? && c.id.sequence < U64_MAX
            && secret.epoch in t.keyring.secrets
  {
    StaysBehind(clock, e, s, steps, secret);
    AcceptedIff(e, AfterAll(e, s, steps), root, c, d);
    AloneOnlyIfHeld(clock, e, AfterAll(e, s, steps), secret);
  }

  // ---------- How such an epoch can still come in ----------

  /** The step installs the epoch together with others. */
  ghost predicate InCompany(e: Engine, s: Session, step: Step, epoch: Epoch) {
    Held(Installs(e, s, step), epoch) && |Installs(e, s, step)| > 1
  }

  /** A step that does not bring it in company leaves the session without it, or unable to go on. */
  lemma StaysWithout(clock: Clock, e: Engine, s: Session, step: Step, secret: Secret)
    requires Behind(clock, e, s, secret) && secret.epoch !in s.keyring.secrets
    requires !InCompany(e, s, step, secret.epoch)
    ensures secret.epoch !in After(e, s, step).keyring.secrets || !Validates(e, After(e, s, step))
  {
    var installs := Installs(e, s, step);
    StepInstalls(e, s, step);
    InstallHolds(s.keyring, installs, secret.epoch);
    if Held(installs, secret.epoch) {
      InstallsTimed(clock, e, s, step);
      assert installs == [secret];
      AloneOnlyIfHeld(clock, e, s, secret);
      match step
      case Register(_) =>
      case Do(action) => UsableAfterLocalIff(e, s, action);
      case Receive(root, c, d) => AcceptedIff(e, s, root, c, d);
    }
  }

  /** No step of the run brings the epoch in company. */
  ghost predicate NeverInCompany(e: Engine, s: Session, steps: seq<Step>, epoch: Epoch)
    decreases |steps|
  {
    steps != [] ==>
      !InCompany(e, s, steps[0], epoch) && NeverInCompany(e, After(e, s, steps[0]), steps[1..], epoch)
  }

  lemma {:induction false} WithoutOrStuck(clock: Clock, e: Engine, s: Session, steps: seq<Step>, secret: Secret)
    requires Behind(clock, e, s, secret) && secret.epoch !in s.keyring.secrets
    requires NeverInCompany(e, s, steps, secret.epoch)
    ensures secret.epoch !in AfterAll(e, s, steps).keyring.secrets || !Validates(e, AfterAll(e, s, steps))
    decreases |steps|
  {
    if steps != [] {
      var t := After(e, s, steps[0]);
      StepStaysBehind(clock, e, s, steps[0], secret);
      StaysWithout(clock, e, s, steps[0], secret);
      AfterAllFirst(e, s, steps);
      if Validates(e, t) {
        WithoutOrStuck(clock, e, t, steps[1..], secret);
      } else {
        UnsoundIsStuck(e, t, steps[1..]);
      }
    }
  }

  /** So the refusal is for good: at the end of every such run the frame is refused again. */
  lemma RefusedForGood(clock: Clock, e: Engine, s: Session, steps: seq<Step>,
                       root: Root, c: Control, d: Option<Direct>, secret: Secret)
    requires Behind(clock, e, s, secret) && secret.epoch !in s.keyring.secrets
    requires NeverInCompany(e, s, steps, secret.epoch)
    requires var answer := Answer(e, AfterAll(e, s, steps), c, d); answer.Some? && answer.value.output == One(secret)
    ensures Processes(e, AfterAll(e, s, steps), root, c, d).Err?
  {
    WithoutOrStuck(clock, e, s, steps, secret);
    OutdatedAcceptedIff(clock, e, s, steps, root, c, d, secret);
  }

  /** If the step receives the awaited frame of an author, the frame hands over just this secret. */
  ghost predicate Hands(e: Engine, s: Session, step: Step, author: Id, secret: Secret) {
    step.Receive? && Awaited(s, author, step.control) ==>
      var answer := Answer(e, s, step.control, step.direct);
      answer.Some? ==> answer.value.output == One(secret)
  }

  ghost predicate Insists(e: Engine, s: Session, steps: seq<Step>, author: Id, secret: Secret)
    decreases |steps|
  {
    steps != [] ==>
      Hands(e, s, steps[0], author, secret) && Insists(e, After(e, s, steps[0]), steps[1..], author, secret)
  }

  /** While the epoch is not held, the awaited frame is refused, and no other frame of its author is next. */
  lemma AwaitedRefused(clock: Clock, e: Engine, s: Session, step: Step, author: Id, secret: Secret)
    requires Behind(clock, e, s, secret) && secret.epoch !in s.keyring.secrets && author != s.me
    requires Hands(e, s, step, author, secret)
    ensures FromAuthor(Accepted(e, s, step), author) == []
  {
    if Accepted(e, s, step) != [] {
      var c := Accepted(e, s, step)[0];
      StepApplies(e, s, step);
      OneFromAuthor(c, author);
      assert Accepted(e, s, step) == [c];
      match step
      case Register(_) =>
      case Do(action) => LocalApplies(e, s, action);
      case Receive(root, _, d) =>
        if c.id.author == author {
          AcceptedIff(e, s, root, c, d);
          AloneOnlyIfHeld(clock, e, s, secret);
        }
    }
  }

  /**
   And with the frame the author stalls for good: over every run in which its awaited frame keeps
   handing over that epoch and nothing brings it in company, no frame of that author is accepted.
   */
  lemma {:induction false} AuthorStallsForGood(clock: Clock, e: Engine, s: Session, steps: seq<Step>,
                                               author: Id, secret: Secret)
    requires Behind(clock, e, s, secret) && secret.epoch !in s.keyring.secrets && author != s.me
    requires NeverInCompany(e, s, steps, secret.epoch) && Insists(e, s, steps, author, secret)
    ensures FromAuthor(Log(e, s, steps), author) == []
    ensures Expected(AfterAll(e, s, steps), author) == Expected(s, author)
    decreases |steps|
  {
    if steps != [] {
      var t := After(e, s, steps[0]);
      AwaitedRefused(clock, e, s, steps[0], author, secret);
      StepApplies(e, s, steps[0]);
      StepStaysBehind(clock, e, s, steps[0], secret);
      StaysWithout(clock, e, s, steps[0], secret);
      AfterAllFirst(e, s, steps);
      assert Moves(e, s, steps)[1..] == Moves(e, t, steps[1..]);
      if Validates(e, t) {
        AuthorStallsForGood(clock, e, t, steps[1..], author, secret);
      } else {
        UnsoundIsStuck(e, t, steps[1..]);
      }
      FromAuthorAppend(Accepted(e, s, steps[0]), Log(e, t, steps[1..]), author);
    }
  }
}

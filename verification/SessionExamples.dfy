/**
 Concrete runs of a group session behind the conditions of the session modules, under one engine
 whose latest secret is the one with the greatest timestamp. Member 1 founds the group with member
 2 by its own clock; member 2 then rotates by a slower one.
 */
module SessionExamples {
  import opened Wrappers
  import opened Epochs
  import opened GroupSession
  import opened GroupRuns
  import opened SessionEpochs
  import opened SessionStalls
  import StableSort

  // ---------- The engine ----------

  ghost predicate IsGreatest(s: Secrets, x: Epoch) {
    x in s && forall y :: y in s ==> s[y] < s[x] || (s[y] == s[x] && y <= x)
  }

  lemma {:induction false} GreatestExists(s: Secrets)
    requires s != map[]
    ensures exists x :: IsGreatest(s, x)
    decreases |s|
  {
    var x :| x in s;
    var rest := s - {x};
    assert forall z :: z in s ==> z == x || (z in rest && rest[z] == s[z]);
    if rest == map[] {
      assert IsGreatest(s, x);
    } else {
      GreatestExists(rest);
      var y :| IsGreatest(rest, y);
      assert IsGreatest(s, x) || IsGreatest(s, y);
    }
  }

  /**
   Founding yields epoch 1 at time 5. Member 2's rotation hands over epoch 2 at time 3. After
   that member 1's own clock has been set back, and its next rotation yields epoch 3 at time 2.
   Member 3's welcome carries epoch 2 together with epoch 4 at time 9. The latest secret is the
   one with the greatest timestamp, of several the one with the greatest identifier.
   */
  ghost predicate ByClocks(e: Engine) {
    && (forall crypto, prekey :: e.register(crypto, prekey) == Some(0))
    && (forall r :: e.generate(r) == Some(if r.secrets == map[] then Secret(1, 5) else Secret(3, 2)))
    && (forall crypto, action, r :: e.compose(crypto, action, r) == Some(Composed(0, [])))
    && (forall crypto, c, m :: e.process(crypto, c, m) == Some(Processed(0, Handed(c.id.author), {1, 2, 3})))
    && (forall payload :: e.decode(payload) == Some(Message(1, 0)))
    && (forall s :: if s == map[] then e.latest(s) == None else e.latest(s).Some? && IsGreatest(s, e.latest(s).value))
  }

  function Handed(author: Id): Output {
    if author == 1 then Nothing
    else if author == 2 then One(Secret(2, 3))
    else Bundle([Secret(2, 3), Secret(4, 9)])
  }

  /** There is such an engine. */
  lemma ByClocksExists() returns (e: Engine)
    ensures ByClocks(e)
  {
    e := Engine(
      (crypto, prekey) => Some(0),
      (r: Ring) => Some(if r.secrets == map[] then Secret(1, 5) else Secret(3, 2)),
      (crypto, action, r) => Some(Composed(0, [])),
      (crypto, c: Control, m) => Some(Processed(0, Handed(c.id.author), {1, 2, 3})),
      payload => Some(Message(1, 0)),
      message => 0,
      s => if s == map[] then None else Some(Greatest(s)));
  }

  ghost function Greatest(s: Secrets): (x: Epoch)
    requires s != map[]
    ensures IsGreatest(s, x)
  {
    GreatestExists(s);
    var x :| IsGreatest(s, x);
    x
  }

  lemma LatestIs(e: Engine, s: Secrets, x: Epoch)
    requires ByClocks(e) && IsGreatest(s, x)
    ensures e.latest(s) == Some(x)
  {
  }

  // ---------- The session ----------

  const FOUNDING := [Register(Prekey(0, 2, 20, 0)), Register(Prekey(0, 3, 30, 0)), Do(Create({2}))]

  const FOUNDED := Session(0, 1, 10, 0, {1, 2}, Ring(map[1 := 5], 1, [1]), 1, map[1 := 1],
                           map[1 := 0, 2 := 0, 3 := 0], map[1 := 10, 2 := 20, 3 := 30])

  lemma KeyringOfOne(e: Engine)
    requires ByClocks(e)
    ensures Chronicled(FOUNDED.keyring) && KeyringValid(FOUNDED.keyring, e.latest)
  {
    var ring := FOUNDED.keyring;
    assert Members(ring.installed) == {1} == ring.secrets.Keys;
    LatestIs(e, ring.secrets, 1);
    OrderKnownIff(ring, e.latest);
  }

  const NEW := Fresh(0, 1, 10, 0, 0)
  const KNOWS_TWO := NEW.(digests := map[1 := 0, 2 := 0], roots := map[1 := 10, 2 := 20])
  const KNOWS_BOTH := NEW.(digests := FOUNDED.digests, roots := FOUNDED.roots)

  lemma EmptyKeyring(e: Engine)
    requires ByClocks(e)
    ensures KeyringValid(NEW.keyring, e.latest)
  {
    assert Members([]) == {};
    OrderKnownIff(NEW.keyring, e.latest);
  }

  lemma RegistersTwo(e: Engine)
    requires ByClocks(e)
    ensures After(e, NEW, FOUNDING[0]) == KNOWS_TWO
  {
    EmptyKeyring(e);
    assert Bound(NEW) && Bound(KNOWS_TWO);
    assert Registers(e, NEW, Prekey(0, 2, 20, 0)) == Ok(KNOWS_TWO);
  }

  lemma RegistersBoth(e: Engine)
    requires ByClocks(e)
    ensures After(e, KNOWS_TWO, FOUNDING[1]) == KNOWS_BOTH
  {
    EmptyKeyring(e);
    assert Bound(KNOWS_TWO) && Bound(KNOWS_BOTH);
    assert Registers(e, KNOWS_TWO, Prekey(0, 3, 30, 0)) == Ok(KNOWS_BOTH);
  }

  lemma Founds(e: Engine)
    requires ByClocks(e)
    ensures After(e, KNOWS_BOTH, FOUNDING[2]) == FOUNDED
  {
    EmptyKeyring(e);
    var action := Create({2});
    assert LocalRefusal(KNOWS_BOTH, action).None? && Validates(e, KNOWS_BOTH);
    var rotated := KNOWS_BOTH.(keyring := FOUNDED.keyring);
    assert e.generate(KNOWS_BOTH.keyring) == Some(Secret(1, 5));
    assert Installed(KNOWS_BOTH.keyring, 1, 5) == FOUNDED.keyring by { assert [] + [1] == [1]; }
    assert Rotated(e, KNOWS_BOTH, action) == Ok(rotated);
    assert Announced(KNOWS_BOTH, action) == Create({1, 2});
    var frame := Control(CONTROL_VERSION, 0, ControlId(1, 0), Create({1, 2}));
    assert Refusal(e, rotated, 10, frame, None).None?;
    assert Answer(e, rotated, frame, None) == Some(Processed(0, Nothing, {1, 2, 3}));
    assert Inner(e, rotated, 10, frame, None) == Ok(FOUNDED);
  }

  /** The founder's session: two pre-keys registered and the group created. */
  lemma FoundedIsReached(e: Engine)
    requires ByClocks(e)
    ensures AfterAll(e, Fresh(0, 1, 10, 0, 0), FOUNDING) == FOUNDED
    ensures Bound(FOUNDED) && Validates(e, FOUNDED)
  {
    KeyringOfOne(e);
    RegistersTwo(e);
    RegistersBoth(e);
    Founds(e);
    AfterAllFirst(e, NEW, FOUNDING);
    AfterAllFirst(e, KNOWS_TWO, FOUNDING[1..]);
    AfterAllFirst(e, KNOWS_BOTH, FOUNDING[2..]);
  }

  // ---------- A frame refused though nothing is wrong with it ----------

  const ROTATION := Control(CONTROL_VERSION, 0, ControlId(2, 0), Update)
  const ROTATION_DIRECT := Direct(DIRECT_VERSION, 0, ControlId(2, 0), 1, 0)

  /** Member 2's first frame passes every check and is taken by the engine, and is refused. */
  lemma SlowClockExample(e: Engine)
    requires ByClocks(e)
    ensures Refusal(e, FOUNDED, 20, ROTATION, Some(ROTATION_DIRECT)).None?
    ensures Answer(e, FOUNDED, ROTATION, Some(ROTATION_DIRECT)).Some?
    ensures Processes(e, FOUNDED, 20, ROTATION, Some(ROTATION_DIRECT)) == Err(InvalidState)
  {
    KeyringOfOne(e);
    var t := FOUNDED.keyring.secrets[2 := 3];
    LatestIs(e, t, 1);
    StaleEpochRefused(e, FOUNDED, 20, ROTATION, Some(ROTATION_DIRECT), Secret(2, 3));
  }

  // ---------- A local operation that succeeds and leaves an unusable session ----------

  const OWN_ROTATION := Control(CONTROL_VERSION, 0, ControlId(1, 1), Update)
  const ROTATED := FOUNDED.(keyring := Ring(map[1 := 5, 3 := 2], 1, [1, 3]))

  lemma OwnRotationPasses(e: Engine)
    requires ByClocks(e)
    ensures Rotated(e, FOUNDED, Update) == Ok(ROTATED)
  {
    assert 1 in FOUNDED.keyring.secrets;
    assert e.generate(FOUNDED.keyring) == Some(Secret(3, 2));
    assert Installed(FOUNDED.keyring, 3, 2) == ROTATED.keyring by { assert [1] + [3] == [1, 3]; }
  }

  lemma OwnRotationApplied(e: Engine)
    requires ByClocks(e)
    ensures Inner(e, ROTATED, 10, OWN_ROTATION, None).Ok?
    ensures Inner(e, ROTATED, 10, OWN_ROTATION, None).value.keyring == ROTATED.keyring
  {
    assert Refusal(e, ROTATED, 10, OWN_ROTATION, None).None?;
    assert Answer(e, ROTATED, OWN_ROTATION, None) == Some(Processed(0, Nothing, {1, 2, 3}));
  }

  lemma RotatedIsInvalid(e: Engine)
    requires ByClocks(e)
    ensures !KeyringValid(ROTATED.keyring, e.latest)
  {
    LatestIs(e, ROTATED.keyring.secrets, 1);
  }

  lemma SetBackClockExample(e: Engine)
    requires ByClocks(e)
    ensures Locally(e, FOUNDED, Update).Ok?
    ensures !Validates(e, Locally(e, FOUNDED, Update).value.next)
  {
    FoundedIsReached(e);
    OwnRotationPasses(e);
    OwnRotationApplied(e);
    RotatedIsInvalid(e);
    assert e.compose(0, Update, ROTATED.keyring) == Some(Composed(0, []));
  }

  // ---------- What ends a stall ----------

  const WELCOME := Control(CONTROL_VERSION, 0, ControlId(3, 0), Add(1))
  const WELCOME_DIRECT := Direct(DIRECT_VERSION, 0, ControlId(3, 0), 1, 0)

  const TIMES: Clock :=
    (epoch: Epoch) => if epoch == 1 then 5 else if epoch == 2 then 3 else if epoch == 3 then 2 else 9

  lemma ArrangedWelcome()
    ensures Arranged(Bundle([Secret(2, 3), Secret(4, 9)])) == [Secret(2, 3), Secret(4, 9)]
  {
    StableSort.SortOfOrdered(OLDER, [Secret(2, 3), Secret(4, 9)]);
  }

  lemma HandedTimed(author: Id)
    ensures Timed(TIMES, Arranged(Handed(author)))
  {
    if author != 1 && author != 2 {
      ArrangedWelcome();
      assert Handed(author) == Bundle([Secret(2, 3), Secret(4, 9)]);
    }
  }

  lemma ClocksTimed(e: Engine)
    requires ByClocks(e)
    ensures EngineTimed(TIMES, e)
  {
    forall r ensures e.generate(r).value.timestamp == TIMES(e.generate(r).value.epoch) {
      var secret := e.generate(r).value;
      assert secret == Secret(1, 5) || secret == Secret(3, 2);
    }
    forall crypto, c, m ensures Timed(TIMES, Arranged(e.process(crypto, c, m).value.output)) {
      assert e.process(crypto, c, m) == Some(Processed(0, Handed(c.id.author), {1, 2, 3}));
      HandedTimed(c.id.author);
    }
  }

  lemma ClocksNameGreatest(e: Engine)
    requires ByClocks(e)
    ensures NamesGreatest(e.latest)
  {
    forall s: Secrets | e.latest(s).Some?
      ensures e.latest(s).value in s && forall x :: x in s ==> s[x] <= s[e.latest(s).value]
    {
      assert IsGreatest(s, e.latest(s).value);
    }
  }

  lemma FoundedTimed()
    ensures RingTimed(TIMES, FOUNDED.keyring) && Outdated(FOUNDED.keyring, Secret(2, 3))
    ensures 2 !in FOUNDED.keyring.secrets
  {
    assert 1 in FOUNDED.keyring.secrets && FOUNDED.keyring.secrets[1] == 5;
  }

  /** The founder is behind in the sense of the theorems on stalls, so those speak of this engine. */
  lemma FoundedIsBehind(e: Engine)
    requires ByClocks(e)
    ensures Behind(TIMES, e, FOUNDED, Secret(2, 3)) && 2 !in FOUNDED.keyring.secrets
  {
    KeyringOfOne(e);
    ClocksTimed(e);
    ClocksNameGreatest(e);
    FoundedTimed();
    assert Bound(FOUNDED);
  }

  const COMPANY := [Secret(2, 3), Secret(4, 9)]

  lemma CompanyEndsWithTheLatest(e: Engine)
    requires ByClocks(e)
    ensures NewestIsLatest(FOUNDED.keyring, COMPANY, e.latest)
    ensures 2 in InstallSecrets(FOUNDED.keyring, COMPANY).secrets
  {
    var one := Installed(FOUNDED.keyring, 2, 3);
    assert COMPANY[..1] == [Secret(2, 3)];
    OneInstalled(FOUNDED.keyring, Secret(2, 3));
    assert InstallSecrets(FOUNDED.keyring, COMPANY) == Installed(one, 4, 9);
    assert NewEpochs(FOUNDED.keyring, COMPANY) == [2, 4];
    LatestIs(e, Installed(one, 4, 9).secrets, 4);
  }

  lemma WelcomePasses(e: Engine)
    requires ByClocks(e)
    ensures Refusal(e, FOUNDED, 30, WELCOME, Some(WELCOME_DIRECT)).None?
    ensures Answer(e, FOUNDED, WELCOME, Some(WELCOME_DIRECT)) == Some(Processed(0, Handed(3), {1, 2, 3}))
  {
    assert NeedsDirect(FOUNDED, WELCOME) && Joining(FOUNDED, WELCOME);
    assert DecodeDirect(e, FOUNDED, WELCOME, WELCOME_DIRECT) == Ok(Message(1, 0));
  }

  const WELCOMING := Receive(30, WELCOME, Some(WELCOME_DIRECT))

  lemma WelcomeTaken(e: Engine)
    requires ByClocks(e)
    ensures Processes(e, FOUNDED, 30, WELCOME, Some(WELCOME_DIRECT)).Ok?
  {
    FoundedIsReached(e);
    KeyringOfOne(e);
    WelcomePasses(e);
    ArrangedWelcome();
    CompanyEndsWithTheLatest(e);
    AcceptedIff(e, FOUNDED, 30, WELCOME, Some(WELCOME_DIRECT));
  }

  lemma WelcomeAccepted(e: Engine)
    requires ByClocks(e)
    ensures Accepted(e, FOUNDED, WELCOMING) == [WELCOME] && Installs(e, FOUNDED, WELCOMING) == COMPANY
    ensures 2 in After(e, FOUNDED, WELCOMING).keyring.secrets
  {
    WelcomeTaken(e);
    WelcomePasses(e);
    ArrangedWelcome();
    CompanyEndsWithTheLatest(e);
    StepInstalls(e, FOUNDED, WELCOMING);
  }

  /** Member 2's first frame, at any session of member 1 that has not heard from it and holds its epoch. */
  lemma RotationAccepted(e: Engine, t: Session)
    requires ByClocks(e) && Behind(TIMES, e, t, Secret(2, 3)) && Validates(e, t)
    requires t.group == 0 && t.me == 1 && 1 in t.members && 2 in t.digests && 2 in t.roots && t.roots[2] == 20
    requires 2 !in t.nextRemote && 2 in t.keyring.secrets
    ensures Processes(e, t, 20, ROTATION, Some(ROTATION_DIRECT)).Ok?
  {
    assert DecodeDirect(e, t, ROTATION, ROTATION_DIRECT) == Ok(Message(1, 0));
    AcceptedIff(e, t, 20, ROTATION, Some(ROTATION_DIRECT));
    AloneOnlyIfHeld(TIMES, e, t, Secret(2, 3));
  }

  /** What the welcome changes in a session it is accepted by. */
  lemma AfterTheWelcome(e: Engine, s: Session)
    requires ByClocks(e) && Accepted(e, s, WELCOMING) != []
    ensures var t := After(e, s, WELCOMING);
            && Validates(e, t) && t.group == s.group && t.me == s.me && t.digests == s.digests && t.roots == s.roots
            && (s.me == 1 ==> 1 in t.members) && (2 !in s.nextRemote ==> 2 !in t.nextRemote)
  {
  }

  /** A welcome brings the missing epoch together with a later one, and the refused frame is then accepted. */
  lemma WelcomeEndsTheStall(e: Engine)
    requires ByClocks(e)
    ensures Accepted(e, FOUNDED, WELCOMING) == [WELCOME] && InCompany(e, FOUNDED, WELCOMING, 2)
    ensures Processes(e, After(e, FOUNDED, WELCOMING), 20, ROTATION, Some(ROTATION_DIRECT)).Ok?
  {
    WelcomeAccepted(e);
    assert COMPANY[0].epoch == 2;
    FoundedIsBehind(e);
    StepStaysBehind(TIMES, e, FOUNDED, WELCOMING, Secret(2, 3));
    AfterTheWelcome(e, FOUNDED);
    RotationAccepted(e, After(e, FOUNDED, WELCOMING));
  }
}

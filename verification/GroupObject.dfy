/**
 The session object of crates/stickleback/src/group_session.rs. Every operation works on a fresh
 copy, field by field, and the copy replaces the session only at the end: a step that fails may
 leave the copy without its engine state or with a keyring ahead of its counters, never the session.
 */
module GroupObject {
  import opened Wrappers
  import opened Epochs
  import opened GroupSession

  /** The engine's state together with the membership it keeps. */
  datatype Dcgka = Dcgka(crypto: nat, members: set<Id>)

  class GroupMember {
    var group: nat
    var me: Id
    var root: Root
    var dcgka: Option<Dcgka>
    var keyring: DataKeyring
    var nextLocal: U64
    var nextRemote: map<Id, U64>
    var digests: map<Id, nat>
    var roots: map<Id, Root>

    ghost function State(): Session
      requires dcgka.Some?
      reads this, keyring
    {
      Image(dcgka.value)
    }

    /** What the object stands for with a given engine state in place. */
    function Image(state: Dcgka): Session
      reads this, keyring
    {
      Session(group, me, root, state.crypto, state.members, keyring.State(), nextLocal, nextRemote, digests, roots)
    }

    constructor (group: nat, me: Id, root: Root, crypto: nat, digest: nat)
      ensures dcgka.Some? && State() == Fresh(group, me, root, crypto, digest) && Bound(State())
    {
      var empty := new DataKeyring();
      this.group, this.me, this.root := group, me, root;
      dcgka, keyring := Some(Dcgka(crypto, {})), empty;
      nextLocal, nextRemote := 0, map[];
      digests, roots := map[me := digest], map[me := root];
    }

    /** Decoding what `to_bytes` encoded. */
    constructor Restore(image: Session)
      ensures dcgka.Some? && State() == image && fresh(keyring)
    {
      var ring := new DataKeyring.Restore(image.keyring);
      group, me, root := image.group, image.me, image.root;
      dcgka, keyring := Some(Dcgka(image.crypto, image.members)), ring;
      nextLocal, nextRemote := image.nextLocal, image.nextRemote;
      digests, roots := image.digests, image.roots;
    }

    method Validate(e: Engine) returns (ok: bool)
      ensures ok <==> dcgka.Some? && Validates(e, State())
    {
      if !KeyringValid(keyring.State(), e.latest) || dcgka.None? {
        return false;
      }
      if me !in digests || me !in roots || roots[me] != root {
        return false;
      }
      if |roots| != |digests| || !(digests.Keys <= roots.Keys) {
        return false;
      }
      SubsetOfSameSize(digests.Keys, roots.Keys);
      var expected := if me in nextRemote then nextRemote[me] else 0;
      ok := nextLocal == expected;
    }

    method TryClone(e: Engine) returns (r: Result<GroupMember, SessionError>)
      requires dcgka.Some?
      ensures r.Err? ==> !Validates(e, State()) && r.error == InvalidState
      ensures r.Ok? ==> Validates(e, State()) && fresh(r.value) && fresh(r.value.keyring)
      ensures r.Ok? ==> r.value.dcgka.Some? && r.value.State() == State()
    {
      var next := new GroupMember.Restore(Image(dcgka.value));
      var ok := next.Validate(e);
      r := if ok then Ok(next) else Err(InvalidState);
    }

    /** The assignment of the finished copy over the session. */
    method Become(next: GroupMember)
      requires next.dcgka.Some?
      modifies this
      ensures dcgka.Some? && keyring == old(next.keyring) && State() == old(next.State())
    {
      group, me, root, dcgka, keyring := next.group, next.me, next.root, next.dcgka, next.keyring;
      nextLocal, nextRemote, digests, roots := next.nextLocal, next.nextRemote, next.digests, next.roots;
    }

    /** The engine state moves out; only a copy is ever without it, and only until it is put back. */
    method TakeState() returns (state: Dcgka)
      requires dcgka.Some?
      modifies `dcgka
      ensures dcgka.None? && old(dcgka) == Some(state)
    {
      state := dcgka.value;
      dcgka := None;
    }

    // ---------- Secrets ----------

    method InstallOutput(output: Output) returns (epochs: seq<Epoch>)
      modifies keyring
      ensures keyring.State() == InstallSecrets(old(keyring.State()), Arranged(output))
      ensures epochs == Learned(old(keyring.State()), output)
    {
      match output
      case Nothing => epochs := [];
      case One(secret) =>
        keyring.Install(secret.epoch, secret.timestamp);
        assert [secret][..0] == [];
        epochs := [secret.epoch];
      case Bundle(secrets) => epochs := keyring.InstallBundle(secrets);
    }

    // ---------- One control frame ----------

    /** The checks on a frame, in order, ending with the message addressed to this member if there is one. */
    method Check(e: Engine, root: Root, c: Control, d: Option<Direct>)
      returns (r: Result<Option<Message>, SessionError>)
      requires dcgka.Some?
      ensures r.Err? ==> Refusal(e, State(), root, c, d) == Some(r.error)
      ensures r.Ok? ==> Refusal(e, State(), root, c, d).None?
      ensures r.Ok? ==> e.process(State().crypto, c, r.value) == Answer(e, State(), c, d)
    {
      if c.version != CONTROL_VERSION { return Err(UnsupportedControlVersion); }
      if c.group != group { return Err(WrongGroup); }
      if c.id.author != me && c.id.author !in digests { return Err(MissingPrekey); }
      if c.id.author !in roots { return Err(MissingPrekey); }
      if roots[c.id.author] != root { return Err(ControlAuthorRootMismatch(c.id.author)); }
      var needsDirect := NeedsDirect(Image(dcgka.value), c);
      if needsDirect && d.None? { return Err(MissingAddressedDirect); }
      if !needsDirect && d.Some? { return Err(UnexpectedDirect); }

      var expected := if c.id.author in nextRemote then nextRemote[c.id.author] else 0;
      var joining := c.id.author !in nextRemote && c.action == Add(me);
      if c.id.sequence != expected && !joining {
        return Err(UnexpectedSequence(c.id.author, expected, c.id.sequence));
      }
      if d.None? { return Ok(None); }
      var decoded := DecodeDirect(e, Image(dcgka.value), c, d.value);
      r := if decoded.Ok? then Ok(Some(decoded.value)) else Err(decoded.error);
    }

    /** Takes over what the engine answered: its state, its secrets, and then the counters if they can still move. */
    method Absorb(c: Control, p: Processed, members: set<Id>) returns (r: Result<seq<Epoch>, SessionError>)
      modifies `dcgka, keyring, `nextLocal, `nextRemote
      ensures dcgka == Some(Dcgka(p.crypto, MembersAfter(me, members, c.action, p.history)))
      ensures keyring.State() == InstallSecrets(old(keyring.State()), Arranged(p.output))
      ensures r == if c.id.sequence < U64_MAX then Ok(Learned(old(keyring.State()), p.output))
                   else Err(SequenceExhausted(c.id.author))
      ensures r.Ok? ==> nextRemote == old(nextRemote)[c.id.author := c.id.sequence + 1]
      ensures r.Ok? ==> nextLocal == if c.id.author == me then c.id.sequence + 1 else old(nextLocal)
      ensures r.Err? ==> nextRemote == old(nextRemote) && nextLocal == old(nextLocal)
    {
      dcgka := Some(Dcgka(p.crypto, MembersAfter(me, members, c.action, p.history)));
      var epochs := InstallOutput(p.output);
      if c.id.sequence == U64_MAX { return Err(SequenceExhausted(c.id.author)); }
      nextRemote := nextRemote[c.id.author := c.id.sequence + 1];
      if c.id.author == me {
        nextLocal := c.id.sequence + 1;
      }
      r := Ok(epochs);
    }

    /**
     Applies a frame to this object, step by step. The engine state is out while the engine works,
     and the keyring is installed before the sequence number can still overflow: a failure after
     the checks leaves the object half-changed.
     */
    method ProcessInner(e: Engine, root: Root, c: Control, d: Option<Direct>)
      returns (r: Result<seq<Epoch>, SessionError>)
      requires dcgka.Some?
      modifies `dcgka, keyring, `nextLocal, `nextRemote
      ensures r.Ok? ==> dcgka.Some? && Inner(e, old(State()), root, c, d) == Ok(State())
      ensures r.Ok? ==> r.value == Learned(old(keyring.State()), Answer(e, old(State()), c, d).value.output)
      ensures r.Err? ==> Inner(e, old(State()), root, c, d) == Err(r.error) && nextRemote == old(nextRemote)
      ensures r == Err(EngineFailed) ==> dcgka.None?
      ensures r.Err? && r.error.SequenceExhausted? ==>
                keyring.State() == InstallSecrets(old(keyring.State()),
                                                  Arranged(Answer(e, old(State()), c, d).value.output))
    {
      var checked := Check(e, root, c, d);
      if checked.Err? {
        RefusalIsNotLate(e, State(), root, c, d);
        return Err(checked.error);
      }
      var taken := TakeState();
      var p := e.process(taken.crypto, c, checked.value);
      if p.None? { return Err(EngineFailed); }
      r := Absorb(c, p.value, taken.members);
    }

    /** A received frame: the copy is changed, validated and swapped in. */
    method Process(e: Engine, root: Root, c: Control, d: Option<Direct>) returns (r: Result<seq<Epoch>, SessionError>)
      requires dcgka.Some?
      modifies this
      ensures dcgka.Some? && (old(Bound(State())) ==> Bound(State()))
      ensures var done := Processes(e, old(State()), root, c, d);
              match r
              case Ok(epochs) =>
                && done == Ok(State())
                && epochs == Learned(old(keyring.State()), Answer(e, old(State()), c, d).value.output)
              case Err(error) => done == Err(error) && State() == old(State())
    {
      var clone := TryClone(e);
      if clone.Err? { return Err(clone.error); }
      var next := clone.value;
      var done := next.ProcessInner(e, root, c, d);
      if done.Err? { return Err(done.error); }
      var ok := next.Validate(e);
      if !ok { return Err(InvalidState); }
      Become(next);
      r := done;
    }

    method RegisterPrekey(e: Engine, p: Prekey) returns (r: Result<(), SessionError>)
      requires dcgka.Some?
      modifies this
      ensures dcgka.Some? && (old(Bound(State())) ==> Bound(State()))
      ensures var done := Registers(e, old(State()), p);
              if r.Ok? then done == Ok(State()) else done == Err(r.error) && State() == old(State())
    {
      if p.group != group { return Err(WrongGroup); }
      if p.recipient in digests {
        return if digests[p.recipient] == p.digest then Ok(()) else Err(ConflictingPrekey(p.recipient));
      }
      var clone := TryClone(e);
      if clone.Err? { return Err(clone.error); }
      var next := clone.value;
      var taken := next.TakeState();
      var registered := e.register(taken.crypto, p);
      if registered.None? { return Err(EngineFailed); }
      next.dcgka := Some(taken.(crypto := registered.value));
      next.digests := next.digests[p.recipient := p.digest];
      next.roots := next.roots[p.recipient := p.root];
      var ok := next.Validate(e);
      if !ok { return Err(InvalidState); }
      Become(next);
      r := Ok(());
    }

    // ---------- Local operations ----------

    /** Wraps a composed operation in frames under the next own sequence number and applies it. */
    method FinishLocal(e: Engine, action: Action, messages: seq<Message>) returns (r: Result<Dispatch, SessionError>)
      requires dcgka.Some?
      modifies `dcgka, keyring, `nextLocal, `nextRemote
      ensures var s := old(State());
              var control := Control(CONTROL_VERSION, s.group, ControlId(s.me, s.nextLocal), action);
              var done := Inner(e, s, s.root, control, None);
              match r
              case Ok(dispatch) =>
                && dcgka.Some? && done == Ok(State())
                && dispatch == Dispatch(control, DirectFrames(e, s, control.id, messages))
              case Err(error) => done == Err(error)
    {
      var id := ControlId(me, nextLocal);
      var control := Control(CONTROL_VERSION, group, id, action);
      var direct := [];
      for i := 0 to |messages|
        invariant direct == DirectFrames(e, old(State()), id, messages)[..i]
      {
        direct := direct + [Direct(DIRECT_VERSION, group, id, messages[i].recipient, e.encode(messages[i]))];
      }
      var done := ProcessInner(e, root, control, None);
      if done.Err? { return Err(done.error); }
      r := Ok(Dispatch(control, direct));
    }

    /** Rotates where the operation does, and lets the engine compose it. */
    method Compose(e: Engine, action: Action) returns (r: Result<seq<Message>, SessionError>)
      requires dcgka.Some?
      modifies `dcgka, keyring
      ensures match r
              case Ok(messages) => dcgka.Some? && Drafted(e, old(State()), action) == Ok(Draft(State(), messages))
              case Err(error) => Drafted(e, old(State()), action) == Err(error)
    {
      if !action.Add? {
        var secret := e.generate(keyring.State());
        if secret.None? { return Err(EngineFailed); }
        keyring.Install(secret.value.epoch, secret.value.timestamp);
      }
      var taken := TakeState();
      var announced := if action.Create? then Create(action.initial + {me}) else action;
      match e.compose(taken.crypto, announced, keyring.State())
      case None => r := Err(EngineFailed);
      case Some(composed) =>
        dcgka := Some(taken.(crypto := composed.crypto));
        r := Ok(composed.messages);
    }

    /** What a local operation does once its own checks have passed; nothing is validated at the end. */
    method Commit(e: Engine, action: Action) returns (r: Result<Dispatch, SessionError>)
      requires dcgka.Some? && LocalRefusal(State(), action).None?
      modifies this
      ensures dcgka.Some? && Performed(Locally(e, old(State()), action), old(State()), State(), r)
    {
      var clone := TryClone(e);
      if clone.Err? { return Err(clone.error); }
      var next := clone.value;
      var messages := next.Compose(e, action);
      if messages.Err? { return Err(messages.error); }
      r := next.FinishLocal(e, if action.Create? then Create(action.initial + {me}) else action, messages.value);
      if r.Ok? {
        Become(next);
      }
    }

    method CreateGroup(e: Engine, initial: set<Id>) returns (r: Result<Dispatch, SessionError>)
      requires dcgka.Some?
      modifies this
      ensures dcgka.Some? && Performed(Locally(e, old(State()), Create(initial)), old(State()), State(), r)
      ensures old(Bound(State())) ==> Bound(State())
    {
      LocallyKeepsBound(e, State(), Create(initial));
      if dcgka.value.members != {} { return Err(GroupAlreadyCreated); }
      if !(initial + {me} <= digests.Keys) { return Err(MissingPrekey); }
      r := Commit(e, Create(initial));
    }

    method UpdateEpoch(e: Engine) returns (r: Result<Dispatch, SessionError>)
      requires dcgka.Some?
      modifies this
      ensures dcgka.Some? && Performed(Locally(e, old(State()), Update), old(State()), State(), r)
      ensures old(Bound(State())) ==> Bound(State())
    {
      LocallyKeepsBound(e, State(), Update);
      if me !in dcgka.value.members { return Err(LocalMemberInactive); }
      r := Commit(e, Update);
    }

    method AddMember(e: Engine, added: Id) returns (r: Result<Dispatch, SessionError>)
      requires dcgka.Some?
      modifies this
      ensures dcgka.Some? && Performed(Locally(e, old(State()), Add(added)), old(State()), State(), r)
      ensures old(Bound(State())) ==> Bound(State())
    {
      LocallyKeepsBound(e, State(), Add(added));
      var members := dcgka.value.members;
      if me !in members { return Err(LocalMemberInactive); }
      if added !in digests { return Err(MissingPrekey); }
      if added in members { return Err(MemberAlreadyPresent(added)); }
      r := Commit(e, Add(added));
    }

    method RemoveMember(e: Engine, removed: Id) returns (r: Result<Dispatch, SessionError>)
      requires dcgka.Some?
      modifies this
      ensures dcgka.Some? && Performed(Locally(e, old(State()), Remove(removed)), old(State()), State(), r)
      ensures old(Bound(State())) ==> Bound(State())
    {
      LocallyKeepsBound(e, State(), Remove(removed));
      var members := dcgka.value.members;
      if me !in members { return Err(LocalMemberInactive); }
      if removed == me { return Err(CannotRemoveSelf); }
      if removed !in members { return Err(UnknownMember(removed)); }
      r := Commit(e, Remove(removed));
    }
  }

  /** The checks on a frame give none of the errors of the steps after them. */
  lemma RefusalIsNotLate(e: Engine, s: Session, root: Root, c: Control, d: Option<Direct>)
    ensures Refusal(e, s, root, c, d) != Some(EngineFailed)
    ensures Refusal(e, s, root, c, d).Some? ==> !Refusal(e, s, root, c, d).value.SequenceExhausted?
  {
  }

  /** A done operation leaves the state and the frames the specification gives; a refused one leaves everything. */
  ghost predicate Performed(done: Result<Local, SessionError>, before: Session, after: Session,
                            r: Result<Dispatch, SessionError>)
  {
    match done
    case Ok(local) => after == local.next && r == Ok(local.dispatch)
    case Err(error) => after == before && r == Err(error)
  }
}

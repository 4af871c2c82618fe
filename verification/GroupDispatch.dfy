/**
 What one group session sends and another receives (crates/stickleback/src/group_session.rs): which
 frames pass a session's checks, what an accepted frame leaves in every field, when a local
 operation is done, and that each direct half of a dispatch opens for its recipient and no other.
 */
module GroupDispatch {
  import opened Wrappers
  import opened Epochs
  import opened GroupSession

  // ---------- What passes ----------

  /** The frame owes this session a direct half: another member made it, and this one is to learn from it. */
  ghost predicate Addressed(s: Session, c: Control) {
    && c.id.author != s.me
    && if c.action.Add? then c.action.added == s.me else s.me in MembersAfter(s.me, s.members, c.action, {})
  }

  ghost predicate InTurn(s: Session, c: Control) {
    || c.id.sequence == (if c.id.author in s.nextRemote then s.nextRemote[c.id.author] else 0)
    || (c.id.author !in s.nextRemote && c.action == Add(s.me))
  }

  /** The author is registered, and the frame was authenticated by the root its pre-key was bound to. */
  ghost predicate Vouched(s: Session, author: Id, root: Root) {
    author in s.roots && s.roots[author] == root && (author == s.me || author in s.digests)
  }

  /** The direct half is for this frame and this session, and holds a message for the same recipient. */
  ghost predicate Opens(e: Engine, s: Session, c: Control, d: Direct, message: Message) {
    && d.version == 1 && d.group == s.group && d.control == c.id && d.recipient == s.me
    && e.decode(d.payload) == Some(message) && message.recipient == s.me
  }

  lemma OpensIff(e: Engine, s: Session, c: Control, d: Direct, message: Message)
    ensures DecodeDirect(e, s, c, d) == Ok(message) <==> Opens(e, s, c, d, message)
  {
  }

  /** A frame is not refused exactly when it is of this version and group, vouched for, in turn and addressed. */
  lemma PassesIff(e: Engine, s: Session, root: Root, c: Control, d: Option<Direct>)
    ensures Refusal(e, s, root, c, d).None?
            <==> && c.version == 1 && c.group == s.group && Vouched(s, c.id.author, root) && InTurn(s, c)
                 && (d.Some? <==> Addressed(s, c))
                 && (d.Some? ==> exists message :: Opens(e, s, c, d.value, message))
  {
    AddressedIff(s, c);
    if d.Some? {
      var decoded := DecodeDirect(e, s, c, d.value);
      if decoded.Ok? { OpensIff(e, s, c, d.value, decoded.value); }
      if message :| Opens(e, s, c, d.value, message) { OpensIff(e, s, c, d.value, message); }
    }
  }

  lemma AddressedIff(s: Session, c: Control)
    ensures NeedsDirect(s, c) <==> Addressed(s, c)
  {
  }

  /** The engine is asked with the message the direct half holds, or with none. */
  lemma AskedWith(e: Engine, s: Session, root: Root, c: Control, d: Option<Direct>)
    requires Refusal(e, s, root, c, d).None?
    ensures Answer(e, s, c, d) == e.process(s.crypto, c, if d.Some? then e.decode(d.value.payload) else None)
  {
  }

  /** One session follows another by a frame: the engine's answer, the counter past it, and nothing else. */
  ghost predicate Follows(s: Session, t: Session, c: Control, answer: Processed) {
    && t.crypto == answer.crypto
    && t.members == MembersAfter(s.me, s.members, c.action, answer.history)
    && t.keyring == InstallSecrets(s.keyring, Arranged(answer.output))
    && c.id.sequence < U64_MAX && t.nextRemote == s.nextRemote[c.id.author := c.id.sequence + 1]
    && t.nextLocal == (if c.id.author == s.me then c.id.sequence + 1 else s.nextLocal)
    && t.group == s.group && t.me == s.me && t.root == s.root && t.digests == s.digests && t.roots == s.roots
  }

  lemma InnerFollows(e: Engine, s: Session, root: Root, c: Control, d: Option<Direct>)
    requires Inner(e, s, root, c, d).Ok?
    ensures Answer(e, s, c, d).Some? && Follows(s, Inner(e, s, root, c, d).value, c, Answer(e, s, c, d).value)
  {
  }

  /** What an accepted frame leaves in every field. */
  lemma AcceptedFrame(e: Engine, s: Session, root: Root, c: Control, d: Option<Direct>)
    requires Processes(e, s, root, c, d).Ok?
    ensures var answer := e.process(s.crypto, c, if d.Some? then e.decode(d.value.payload) else None);
            answer.Some? && Follows(s, Processes(e, s, root, c, d).value, c, answer.value)
  {
    AskedWith(e, s, root, c, d);
    InnerFollows(e, s, root, c, d);
  }

  // ---------- What is sent ----------

  ghost function Said(s: Session, action: Action): Action {
    if action.Create? then Create(action.initial + {s.me}) else action
  }

  /** The keyring the operation is composed with: rotated, unless a member is being added. */
  ghost function Turned(e: Engine, s: Session, action: Action): Ring
    requires !action.Add? ==> e.generate(s.keyring).Some?
  {
    if action.Add? then s.keyring
    else Installed(s.keyring, e.generate(s.keyring).value.epoch, e.generate(s.keyring).value.timestamp)
  }

  ghost predicate Permitted(s: Session, action: Action) {
    match action
    case Create(initial) => s.members == {} && s.me in s.digests && forall id :: id in initial ==> id in s.digests
    case Update => s.me in s.members
    case Add(added) => s.me in s.members && added in s.digests && added !in s.members
    case Remove(removed) => s.me in s.members && removed in s.members && removed != s.me
  }

  ghost predicate EngineTakes(e: Engine, s: Session, action: Action) {
    && (!action.Add? ==> e.generate(s.keyring).Some?)
    && var composed := e.compose(s.crypto, Said(s, action), Turned(e, s, action));
    && composed.Some?
    && e.process(composed.value.crypto, Control(1, s.group, ControlId(s.me, s.nextLocal), Said(s, action)), None).Some?
  }

  lemma PermittedIff(s: Session, action: Action)
    ensures LocalRefusal(s, action).None? <==> Permitted(s, action)
  {
  }

  /** A session's own frame always passes its own checks. */
  lemma OwnFramePasses(e: Engine, s: Session, action: Action, draft: Session)
    requires Bound(s) && LocalRefusal(s, action).None?
    requires draft.group == s.group && draft.me == s.me && draft.roots == s.roots && draft.digests == s.digests
    requires draft.nextRemote == s.nextRemote && draft.members == s.members
    ensures Refusal(e, draft, s.root, OwnFrame(s, action), None).None?
  {
    PassesIff(e, draft, s.root, OwnFrame(s, action), None);
  }

  /** A local operation is done exactly when it is permitted, the session validates, and the engine takes part. */
  lemma LocallyIff(e: Engine, s: Session, action: Action)
    requires Bound(s)
    ensures Locally(e, s, action).Ok?
            <==> && Permitted(s, action) && KeyringValid(s.keyring, e.latest)
                 && EngineTakes(e, s, action) && s.nextLocal < U64_MAX
  {
    PermittedIff(s, action);
    if Permitted(s, action) && Drafted(e, s, action).Ok? {
      var draft := Drafted(e, s, action).value.session;
      OwnFramePasses(e, s, action, draft);
      assert Answer(e, draft, OwnFrame(s, action), None) == e.process(draft.crypto, OwnFrame(s, action), None);
    }
  }

  /** What a local operation leaves: the engine's answer to its own frame on the rotated keyring, and nothing else. */
  lemma LocalFollows(e: Engine, s: Session, action: Action)
    requires Locally(e, s, action).Ok?
    ensures EngineTakes(e, s, action)
    ensures var composed := e.compose(s.crypto, Said(s, action), Turned(e, s, action)).value;
            var control := Control(1, s.group, ControlId(s.me, s.nextLocal), Said(s, action));
            var answer := e.process(composed.crypto, control, None).value;
            Follows(s.(crypto := composed.crypto, keyring := Turned(e, s, action)), Locally(e, s, action).value.next,
                    control, answer)
  {
    var draft := Drafted(e, s, action).value.session;
    InnerFollows(e, draft, s.root, OwnFrame(s, action), None);
    AskedWith(e, draft, s.root, OwnFrame(s, action), None);
  }

  /** What is sent: the operation under the next own number, and one direct half per composed message. */
  lemma DispatchIs(e: Engine, s: Session, action: Action)
    requires Locally(e, s, action).Ok?
    ensures !action.Add? ==> e.generate(s.keyring).Some?
    ensures var composed := e.compose(s.crypto, Said(s, action), Turned(e, s, action));
            var dispatch := Locally(e, s, action).value.dispatch;
            && composed.Some? && |dispatch.direct| == |composed.value.messages|
            && dispatch.control == Control(1, s.group, ControlId(s.me, s.nextLocal), Said(s, action))
  {
  }

  ghost function Messages(e: Engine, s: Session, action: Action): seq<Message>
    requires Locally(e, s, action).Ok?
  {
    DispatchIs(e, s, action);
    e.compose(s.crypto, Said(s, action), Turned(e, s, action)).value.messages
  }

  // ---------- Both sides ----------

  /** What one engine encodes, the other decodes. */
  ghost predicate Understands(f: Engine, e: Engine) {
    forall m :: f.decode(e.encode(m)) == Some(m)
  }

  /** Each direct half opens, as its own message, for the member it is for and for no other. */
  lemma DirectOpensForItsRecipient(e: Engine, s: Session, action: Action, f: Engine, r: Session, i: nat)
    requires Understands(f, e) && Locally(e, s, action).Ok? && r.group == s.group
    requires i < |Messages(e, s, action)|
    ensures |Locally(e, s, action).value.dispatch.direct| == |Messages(e, s, action)|
    ensures var dispatch := Locally(e, s, action).value.dispatch;
            DecodeDirect(f, r, dispatch.control, dispatch.direct[i]) == Ok(Messages(e, s, action)[i])
            <==> r.me == Messages(e, s, action)[i].recipient
  {
    DispatchIs(e, s, action);
    var dispatch, message := Locally(e, s, action).value.dispatch, Messages(e, s, action)[i];
    assert dispatch.direct[i].payload == e.encode(message);
    OpensIff(f, r, dispatch.control, dispatch.direct[i], message);
  }

  /** The receiver is handed its own half of the dispatch, and none when there is none. */
  ghost predicate Handed(e: Engine, s: Session, action: Action, me: Id, d: Option<Direct>)
    requires Locally(e, s, action).Ok?
  {
    DispatchIs(e, s, action);
    var direct, messages := Locally(e, s, action).value.dispatch.direct, Messages(e, s, action);
    if d.None? then forall i :: 0 <= i < |messages| ==> messages[i].recipient != me
    else exists i :: 0 <= i < |messages| && messages[i].recipient == me && direct[i] == d.value
  }

  /**
   A dispatch passes another session's checks exactly when that session is of the same group,
   knows the sender by the root it acts under, is next to hear from it, and the engine composed a
   message for it exactly if it is owed one.
   */
  lemma DispatchPassesIff(e: Engine, s: Session, action: Action, f: Engine, r: Session, d: Option<Direct>)
    requires Understands(f, e) && Locally(e, s, action).Ok? && r.me != s.me && Handed(e, s, action, r.me, d)
    ensures var control := Locally(e, s, action).value.dispatch.control;
            Refusal(f, r, s.root, control, d).None?
            <==> && r.group == s.group && Vouched(r, s.me, s.root) && InTurn(r, control)
                 && (Addressed(r, control)
                     <==> exists i :: 0 <= i < |Messages(e, s, action)| && Messages(e, s, action)[i].recipient == r.me)
  {
    DispatchIs(e, s, action);
    var dispatch, messages := Locally(e, s, action).value.dispatch, Messages(e, s, action);
    PassesIff(f, r, s.root, dispatch.control, d);
    if d.Some? {
      var i :| 0 <= i < |messages| && messages[i].recipient == r.me && dispatch.direct[i] == d.value;
      if r.group == s.group {
        DirectOpensForItsRecipient(e, s, action, f, r, i);
        OpensIff(f, r, dispatch.control, d.value, messages[i]);
      }
    }
  }

  // ---------- Registration ----------

  /** A pre-key is taken up exactly when it is of this group and is known already or can be added. */
  lemma RegistersIff(e: Engine, s: Session, p: Prekey)
    requires Bound(s)
    ensures Registers(e, s, p).Ok?
            <==> && p.group == s.group
                 && if p.recipient in s.digests then s.digests[p.recipient] == p.digest
                    else KeyringValid(s.keyring, e.latest) && e.register(s.crypto, p).Some?
  {
  }

  /** And then it is bound to its root, and nobody else's binding, member or counter has moved. */
  lemma RegistersBinds(e: Engine, s: Session, p: Prekey)
    requires Bound(s) && Registers(e, s, p).Ok?
    ensures var t := Registers(e, s, p).value;
            && p.recipient in t.digests && t.digests[p.recipient] == p.digest
            && (p.recipient !in s.digests ==>
                  t.roots == s.roots[p.recipient := p.root] && e.register(s.crypto, p) == Some(t.crypto))
            && (p.recipient in s.digests ==> t == s)
            && (forall id :: id != p.recipient ==> (id in t.digests <==> id in s.digests))
            && t.members == s.members && t.keyring == s.keyring
            && t.nextLocal == s.nextLocal && t.nextRemote == s.nextRemote
  {
  }

  // ---------- What a session checks of itself ----------

  /**
   A session validates exactly when its keyring has no chronology or one that fits its secrets and
   ends with the latest, its own pre-key is bound to its own root, every digest has a root and every
   root a digest, and its own counter is the one it keeps for itself.
   */
  lemma ValidatesIff(e: Engine, s: Session)
    ensures Validates(e, s)
            <==> && (|| (s.keyring.orderVersion == 0 && s.keyring.installed == [])
                     || (s.keyring.orderVersion == 1 && FitsSecrets(s.keyring)
                         && Newest(s.keyring.installed) == e.latest(s.keyring.secrets)))
                 && s.me in s.digests && s.me in s.roots && s.roots[s.me] == s.root
                 && (forall id :: id in s.digests <==> id in s.roots)
                 && s.nextLocal == (if s.me in s.nextRemote then s.nextRemote[s.me] else 0)
  {
    assert s.roots.Keys == s.digests.Keys <==> forall id :: id in s.digests <==> id in s.roots;
  }

  /** As many entries as secrets, and each entry a secret's. */
  ghost predicate FitsSecrets(r: Ring) {
    |r.installed| == |r.secrets| && forall i :: 0 <= i < |r.installed| ==> r.installed[i] in r.secrets
  }
}

/**
 The group session of crates/stickleback/src/group_session.rs: what a session checks before it
 applies a control frame, how its per-author counters and its membership move, and that a refused
 call leaves it as it was. The key-agreement engine is a parameter. It is taken to hand each
 control message to the membership operations the repository defines: create, add (or, for the
 joiner, the welcome's history), remove.
 */
module GroupSession {
  import opened Wrappers
  import opened Epochs
  import StableSort

  type Id = nat
  type Root = nat
  type U64 = x: int | 0 <= x < 0x1_0000_0000_0000_0000
  const U64_MAX: int := 0xFFFF_FFFF_FFFF_FFFF
  const CONTROL_VERSION: nat := 1
  const DIRECT_VERSION: nat := 1

  datatype Action = Create(initial: set<Id>) | Update | Add(added: Id) | Remove(removed: Id)

  datatype ControlId = ControlId(author: Id, sequence: U64)

  datatype Control = Control(version: nat, group: nat, id: ControlId, action: Action)

  datatype Direct = Direct(version: nat, group: nat, control: ControlId, recipient: Id, payload: nat)

  /** A pre-key bundle whose own signatures have been checked, with the root that signed it. */
  datatype Prekey = Prekey(group: nat, recipient: Id, root: Root, digest: nat)

  datatype Message = Message(recipient: Id, body: nat)

  /** The secrets a frame hands over; the ones of a welcome come as a bundle, in no particular order. */
  datatype Output = Nothing | One(secret: Secret) | Bundle(secrets: seq<Secret>)

  /** What the engine returns for a processed frame; `history` is the membership a welcome carries. */
  datatype Processed = Processed(crypto: nat, output: Output, history: set<Id>)

  datatype Composed = Composed(crypto: nat, messages: seq<Message>)

  datatype Engine = Engine(
    register: (nat, Prekey) -> Option<nat>,
    generate: Ring -> Option<Secret>,
    compose: (nat, Action, Ring) -> Option<Composed>,
    process: (nat, Control, Option<Message>) -> Option<Processed>,
    decode: nat -> Option<Message>,
    encode: Message -> nat,
    latest: Latest)

  datatype Session = Session(
    group: nat, me: Id, root: Root, crypto: nat, members: set<Id>, keyring: Ring,
    nextLocal: U64, nextRemote: map<Id, U64>, digests: map<Id, nat>, roots: map<Id, Root>)

  datatype SessionError =
    | WrongGroup
    | MissingPrekey
    | ConflictingPrekey(id: Id)
    | GroupAlreadyCreated
    | LocalMemberInactive
    | MemberAlreadyPresent(id: Id)
    | CannotRemoveSelf
    | UnknownMember(id: Id)
    | UnsupportedControlVersion
    | UnsupportedDirectVersion
    | ControlAuthorRootMismatch(id: Id)
    | MissingAddressedDirect
    | UnexpectedDirect
    | UnexpectedSequence(author: Id, expected: nat, actual: nat)
    | DirectControlMismatch
    | DirectRecipientMismatch
    | SequenceExhausted(id: Id)
    | InvalidState
    | DecodeFailed
    | EngineFailed

  // ---------- Validation ----------

  /** The counter for an author; an author not heard from stands at zero. */
  function Expected(s: Session, author: Id): U64 {
    if author in s.nextRemote then s.nextRemote[author] else 0
  }

  predicate KeyringValid(r: Ring, latest: Latest) {
    && r.orderVersion <= 1
    && (r.orderVersion == 0 ==> r.installed == [])
    && (r.orderVersion == 1 ==> OldestFirst(r, latest).Some?)
  }

  /** The own counter is the local counter, and pre-key digests and roots cover the same recipients. */
  predicate Bound(s: Session) {
    && s.me in s.digests
    && s.me in s.roots && s.roots[s.me] == s.root
    && s.roots.Keys == s.digests.Keys
    && s.nextLocal == Expected(s, s.me)
  }

  predicate Validates(e: Engine, s: Session) {
    KeyringValid(s.keyring, e.latest) && Bound(s)
  }

  // ---------- One control frame ----------

  predicate NeedsDirect(s: Session, c: Control) {
    c.id.author != s.me &&
    match c.action
    case Create(initial) => s.me in initial
    case Update => s.me in s.members
    case Add(added) => added == s.me
    case Remove(removed) => s.me in s.members && removed != s.me
  }

  /** A first frame from an author may start anywhere when it is the one that adds us. */
  predicate Joining(s: Session, c: Control) {
    c.id.author !in s.nextRemote && c.action == Add(s.me)
  }

  function MembersAfter(me: Id, members: set<Id>, action: Action, history: set<Id>): set<Id> {
    match action
    case Create(initial) => initial
    case Update => members
    case Add(added) => if added == me then history + {me} else members + {added}
    case Remove(removed) => members - {removed}
  }

  /** The secrets in the order they are installed: a bundle by timestamp, then by identifier. */
  function Arranged(output: Output): seq<Secret> {
    match output
    case Nothing => []
    case One(secret) => [secret]
    case Bundle(secrets) => StableSort.Sort(OLDER, secrets)
  }

  /** The epochs a processed frame reports; a single secret is reported whether or not it is new. */
  function Learned(r: Ring, output: Output): seq<Epoch> {
    match output
    case Nothing => []
    case One(secret) => [secret.epoch]
    case Bundle(_) => NewEpochs(r, Arranged(output))
  }

  function DecodeDirect(e: Engine, s: Session, c: Control, d: Direct): Result<Message, SessionError> {
    if d.version != DIRECT_VERSION then Err(UnsupportedDirectVersion)
    else if d.group != s.group then Err(WrongGroup)
    else if d.control != c.id then Err(DirectControlMismatch)
    else if d.recipient != s.me then Err(DirectRecipientMismatch)
    else
      var message := e.decode(d.payload);
      if message.None? then Err(DecodeFailed)
      else if message.value.recipient != d.recipient then Err(DirectRecipientMismatch)
      else Ok(message.value)
  }

  /** The checks on a frame before the engine sees it, in order. */
  function Refusal(e: Engine, s: Session, root: Root, c: Control, d: Option<Direct>): Option<SessionError> {
    if c.version != CONTROL_VERSION then Some(UnsupportedControlVersion)
    else if c.group != s.group then Some(WrongGroup)
    else if c.id.author != s.me && c.id.author !in s.digests then Some(MissingPrekey)
    else if c.id.author !in s.roots then Some(MissingPrekey)
    else if s.roots[c.id.author] != root then Some(ControlAuthorRootMismatch(c.id.author))
    else if NeedsDirect(s, c) && d.None? then Some(MissingAddressedDirect)
    else if !NeedsDirect(s, c) && d.Some? then Some(UnexpectedDirect)
    else if c.id.sequence != Expected(s, c.id.author) && !Joining(s, c)
    then Some(UnexpectedSequence(c.id.author, Expected(s, c.id.author), c.id.sequence))
    else if d.Some? && DecodeDirect(e, s, c, d.value).Err? then Some(DecodeDirect(e, s, c, d.value).error)
    else None
  }

  function Applied(s: Session, c: Control, p: Processed): Session
    requires c.id.sequence < U64_MAX
  {
    s.(crypto := p.crypto,
       members := MembersAfter(s.me, s.members, c.action, p.history),
       keyring := InstallSecrets(s.keyring, Arranged(p.output)),
       nextRemote := s.nextRemote[c.id.author := c.id.sequence + 1],
       nextLocal := if c.id.author == s.me then c.id.sequence + 1 else s.nextLocal)
  }

  /** What the engine answers a frame that was not refused. */
  function Answer(e: Engine, s: Session, c: Control, d: Option<Direct>): Option<Processed> {
    e.process(s.crypto, c,
              if d.Some? && DecodeDirect(e, s, c, d.value).Ok?
              then Some(DecodeDirect(e, s, c, d.value).value) else None)
  }

  function Inner(e: Engine, s: Session, root: Root, c: Control, d: Option<Direct>): Result<Session, SessionError> {
    var refusal, p := Refusal(e, s, root, c, d), Answer(e, s, c, d);
    if refusal.Some? then Err(refusal.value)
    else if p.None? then Err(EngineFailed)
    else if c.id.sequence == U64_MAX then Err(SequenceExhausted(c.id.author))
    else Ok(Applied(s, c, p.value))
  }

  /** Validate a copy, apply, validate the result; the copy replaces the session only at the end. */
  function Processes(e: Engine, s: Session, root: Root, c: Control, d: Option<Direct>): Result<Session, SessionError> {
    if !Validates(e, s) then Err(InvalidState)
    else
      var next := Inner(e, s, root, c, d);
      if next.Err? then next
      else if !Validates(e, next.value) then Err(InvalidState)
      else next
  }

  // ---------- Local operations ----------

  /** What the caller may not do, in the order it is checked. */
  function LocalRefusal(s: Session, action: Action): Option<SessionError> {
    match action
    case Create(initial) =>
      if s.members != {} then Some(GroupAlreadyCreated)
      else if initial + {s.me} <= s.digests.Keys then None
      else Some(MissingPrekey)
    case Update => if s.me !in s.members then Some(LocalMemberInactive) else None
    case Add(added) =>
      if s.me !in s.members then Some(LocalMemberInactive)
      else if added !in s.digests then Some(MissingPrekey)
      else if added in s.members then Some(MemberAlreadyPresent(added))
      else None
    case Remove(removed) =>
      if s.me !in s.members then Some(LocalMemberInactive)
      else if removed == s.me then Some(CannotRemoveSelf)
      else if removed !in s.members then Some(UnknownMember(removed))
      else None
  }

  /** The creator is always among the members it announces. */
  function Announced(s: Session, action: Action): Action {
    match action
    case Create(initial) => Create(initial + {s.me})
    case _ => action
  }

  /** Creating, updating and removing install a fresh epoch first; adding does not. */
  function Rotated(e: Engine, s: Session, action: Action): Result<Session, SessionError> {
    if action.Add? then Ok(s)
    else
      var secret := e.generate(s.keyring);
      if secret.None? then Err(EngineFailed)
      else Ok(s.(keyring := Installed(s.keyring, secret.value.epoch, secret.value.timestamp)))
  }

  datatype Dispatch = Dispatch(control: Control, direct: seq<Direct>)

  datatype Local = Local(next: Session, dispatch: Dispatch)

  function DirectFrames(e: Engine, s: Session, id: ControlId, messages: seq<Message>): seq<Direct> {
    seq(|messages|, i requires 0 <= i < |messages| =>
      Direct(DIRECT_VERSION, s.group, id, messages[i].recipient, e.encode(messages[i])))
  }

  /** The session with the operation composed, and the messages that go with it. */
  datatype Draft = Draft(session: Session, messages: seq<Message>)

  function Drafted(e: Engine, s: Session, action: Action): Result<Draft, SessionError> {
    var rotated := Rotated(e, s, action);
    if rotated.Err? then Err(rotated.error)
    else
      var composed := e.compose(s.crypto, Announced(s, action), rotated.value.keyring);
      if composed.None? then Err(EngineFailed)
      else Ok(Draft(rotated.value.(crypto := composed.value.crypto), composed.value.messages))
  }

  /** The frame that announces an operation, under the next own sequence number. */
  function OwnFrame(s: Session, action: Action): Control {
    Control(CONTROL_VERSION, s.group, ControlId(s.me, s.nextLocal), Announced(s, action))
  }

  /** A local operation: compose a frame and process it at once. */
  function Locally(e: Engine, s: Session, action: Action): Result<Local, SessionError> {
    var refusal := LocalRefusal(s, action);
    if refusal.Some? then Err(refusal.value)
    else if !Validates(e, s) then Err(InvalidState)
    else
      var draft := Drafted(e, s, action);
      if draft.Err? then Err(draft.error)
      else
        var control := OwnFrame(s, action);
        var next := Inner(e, draft.value.session, s.root, control, None);
        if next.Err? then Err(next.error)
        else Ok(Local(next.value, Dispatch(control, DirectFrames(e, s, control.id, draft.value.messages))))
  }

  function Registers(e: Engine, s: Session, p: Prekey): Result<Session, SessionError> {
    if p.group != s.group then Err(WrongGroup)
    else if p.recipient in s.digests then
      if s.digests[p.recipient] == p.digest then Ok(s) else Err(ConflictingPrekey(p.recipient))
    else if !Validates(e, s) then Err(InvalidState)
    else if e.register(s.crypto, p).None? then Err(EngineFailed)
    else
      var next := s.(crypto := e.register(s.crypto, p).value,
                     digests := s.digests[p.recipient := p.digest],
                     roots := s.roots[p.recipient := p.root]);
      if Validates(e, next) then Ok(next) else Err(InvalidState)
  }

  // ---------- What the operations keep ----------

  function Fresh(group: nat, me: Id, root: Root, crypto: nat, digest: nat): Session {
    Session(group, me, root, crypto, {}, Ring(map[], 1, []), 0, map[], map[me := digest], map[me := root])
  }

  /** A frame keeps the counters and bindings in step; no check after the local path is needed for that. */
  lemma InnerKeepsBound(e: Engine, s: Session, root: Root, c: Control, d: Option<Direct>)
    requires Bound(s) && Inner(e, s, root, c, d).Ok?
    ensures Bound(Inner(e, s, root, c, d).value)
  {
  }

  lemma LocallyKeepsBound(e: Engine, s: Session, action: Action)
    ensures Bound(s) && Locally(e, s, action).Ok? ==> Bound(Locally(e, s, action).value.next)
  {
    var done := Locally(e, s, action);
    if Bound(s) && done.Ok? {
      InnerKeepsBound(e, Drafted(e, s, action).value.session, s.root, OwnFrame(s, action), None);
    }
  }
}

/**
 Whole runs of a group session: the frames it accepts from one author carry consecutive sequence
 numbers, no frame is accepted twice, and membership is a function of the accepted log, so that
 sessions which accepted the same log agree on who is in the group.
 */
module GroupRuns {
  import opened Wrappers
  import opened GroupSession

  datatype Step =
    | Register(prekey: Prekey)
    | Do(action: Action)
    | Receive(root: Root, control: Control, direct: Option<Direct>)

  function After(e: Engine, s: Session, step: Step): Session {
    match step
    case Register(p) => var r := Registers(e, s, p); if r.Ok? then r.value else s
    case Do(action) => var r := Locally(e, s, action); if r.Ok? then r.value.next else s
    case Receive(root, c, d) => var r := Processes(e, s, root, c, d); if r.Ok? then r.value else s
  }

  /** The frame a step makes the session apply, its own or a received one. */
  function Accepted(e: Engine, s: Session, step: Step): seq<Control> {
    match step
    case Register(_) => []
    case Do(action) => var r := Locally(e, s, action); if r.Ok? then [r.value.dispatch.control] else []
    case Receive(root, c, d) => if Processes(e, s, root, c, d).Ok? then [c] else []
  }

  // ---------- One step ----------

  /** The session state on which the engine was asked, and the membership its answer carried. */
  ghost predicate Applies(s: Session, t: Session, c: Control, history: set<Id>) {
    && (c.id.sequence == Expected(s, c.id.author) || Joining(s, c))
    && c.id.sequence < U64_MAX
    && t.me == s.me
    && t.nextRemote == s.nextRemote[c.id.author := c.id.sequence + 1]
    && t.members == MembersAfter(s.me, s.members, c.action, history)
  }

  /** The membership the engine's answer carried for an accepted frame. */
  function Welcome(e: Engine, s: Session, step: Step): set<Id> {
    match step
    case Receive(_, c, d) =>
      var p := Answer(e, s, c, d);
      if p.Some? then p.value.history else {}
    case _ => {}
  }

  lemma StepApplies(e: Engine, s: Session, step: Step)
    requires Bound(s)
    ensures Bound(After(e, s, step)) && After(e, s, step).me == s.me && |Accepted(e, s, step)| <= 1
    ensures Accepted(e, s, step) == [] ==>
              After(e, s, step).nextRemote == s.nextRemote && After(e, s, step).members == s.members
    ensures Accepted(e, s, step) != [] ==> Applies(s, After(e, s, step), Accepted(e, s, step)[0], Welcome(e, s, step))
  {
    match step
    case Register(_) =>
    case Do(action) =>
      LocallyKeepsBound(e, s, action);
      if Locally(e, s, action).Ok? { LocalApplies(e, s, action); }
    case Receive(root, c, d) =>
  }

  /** A member never announces its own joining, so the welcome plays no part in local operations. */
  lemma LocalApplies(e: Engine, s: Session, action: Action)
    requires Bound(s) && Locally(e, s, action).Ok?
    ensures var c := Locally(e, s, action).value.dispatch.control;
            && Applies(s, Locally(e, s, action).value.next, c, {})
            && c.id == ControlId(s.me, s.nextLocal) && c.action != Add(s.me)
  {
    assert Announced(s, action).Add? ==> Announced(s, action).added != s.me;
  }

  // ---------- A run as a list of moves ----------

  /** One step seen from outside: the states around it, the frame it applied, the welcome it carried. */
  datatype Move = Move(before: Session, after: Session, log: seq<Control>, welcome: set<Id>)

  ghost predicate Sound(m: Move) {
    && m.after.me == m.before.me && |m.log| <= 1
    && (m.log == [] ==> m.after.nextRemote == m.before.nextRemote && m.after.members == m.before.members)
    && (m.log != [] ==> Applies(m.before, m.after, m.log[0], m.welcome))
  }

  function Moves(e: Engine, s: Session, steps: seq<Step>): seq<Move>
    decreases |steps|
  {
    if steps == [] then []
    else
      var t := After(e, s, steps[0]);
      [Move(s, t, Accepted(e, s, steps[0]), Welcome(e, s, steps[0]))] + Moves(e, t, steps[1..])
  }

  /** The moves follow one another from a state, and each is sound. */
  ghost predicate Linked(s: Session, moves: seq<Move>)
    decreases |moves|
  {
    moves != [] ==> moves[0].before == s && Sound(moves[0]) && Linked(moves[0].after, moves[1..])
  }

  function LogOf(moves: seq<Move>): seq<Control> {
    if moves == [] then [] else moves[0].log + LogOf(moves[1..])
  }

  function EndOf(s: Session, moves: seq<Move>): Session {
    if moves == [] then s else moves[|moves| - 1].after
  }

  function AfterAll(e: Engine, s: Session, steps: seq<Step>): Session {
    EndOf(s, Moves(e, s, steps))
  }

  /** Every frame the run made the session apply, in order. */
  function Log(e: Engine, s: Session, steps: seq<Step>): seq<Control> {
    LogOf(Moves(e, s, steps))
  }

  lemma {:induction false} MovesLinked(e: Engine, s: Session, steps: seq<Step>)
    requires Bound(s)
    ensures Linked(s, Moves(e, s, steps))
    decreases |steps|
  {
    if steps != [] {
      StepApplies(e, s, steps[0]);
      MovesLinked(e, After(e, s, steps[0]), steps[1..]);
      assert Moves(e, s, steps)[1..] == Moves(e, After(e, s, steps[0]), steps[1..]);
    }
  }

  // ---------- Sequence numbers ----------

  function FromAuthor(log: seq<Control>, author: Id): seq<Control> {
    if log == [] then []
    else (if log[0].id.author == author then [log[0]] else []) + FromAuthor(log[1..], author)
  }

  ghost predicate Consecutive(log: seq<Control>) {
    forall k :: 0 < k < |log| ==> log[k].id.sequence == log[k - 1].id.sequence + 1
  }

  /** The first frame of an author is at its counter, or adds this member. */
  ghost predicate StartsRight(s: Session, author: Id, log: seq<Control>) {
    log != [] ==> log[0].id.sequence == Expected(s, author) || (author !in s.nextRemote && log[0].action == Add(s.me))
  }

  lemma {:induction false} FromAuthorAppend(a: seq<Control>, b: seq<Control>, author: Id)
    ensures FromAuthor(a + b, author) == FromAuthor(a, author) + FromAuthor(b, author)
    decreases |a|
  {
    if a == [] {
      assert a + b == b;
    } else {
      assert (a + b)[1..] == a[1..] + b && (a + b)[0] == a[0];
      FromAuthorAppend(a[1..], b, author);
      var here := if a[0].id.author == author then [a[0]] else [];
      assert here + (FromAuthor(a[1..], author) + FromAuthor(b, author))
          == here + FromAuthor(a[1..], author) + FromAuthor(b, author);
    }
  }

  lemma OneFromAuthor(c: Control, author: Id)
    ensures FromAuthor([c], author) == if c.id.author == author then [c] else []
  {
    assert [c][1..] == [];
  }

  /** One author's frames between two states: consecutive, rightly started, and counted. */
  ghost predicate Orderly(s: Session, t: Session, author: Id, log: seq<Control>) {
    && Consecutive(log) && StartsRight(s, author, log)
    && Expected(t, author) == (if log == [] then Expected(s, author) else log[|log| - 1].id.sequence + 1)
  }

  function FrameOf(m: Move, author: Id): seq<Control> {
    if m.log != [] && m.log[0].id.author == author then [m.log[0]] else []
  }

  lemma OrderlyMove(m: Move, end: Session, rest: seq<Control>, author: Id)
    requires Sound(m) && Orderly(m.after, end, author, rest)
    ensures Orderly(m.before, end, author, FrameOf(m, author) + rest)
  {
    if FrameOf(m, author) == [] {
      assert FrameOf(m, author) + rest == rest;
      CounterStands(m, author);
    } else {
      OrderlyFrame(m, end, rest, author, m.log[0]);
    }
  }

  /** A move that applies no frame of an author leaves that author's counter alone. */
  lemma CounterStands(m: Move, author: Id)
    requires Sound(m) && FrameOf(m, author) == []
    ensures Expected(m.after, author) == Expected(m.before, author) && m.after.me == m.before.me
    ensures author in m.after.nextRemote <==> author in m.before.nextRemote
  {
  }

  lemma OrderlyFrame(m: Move, end: Session, rest: seq<Control>, author: Id, c: Control)
    requires Sound(m) && m.log == [c] && c.id.author == author && Orderly(m.after, end, author, rest)
    ensures Orderly(m.before, end, author, [c] + rest)
  {
    assert author in m.after.nextRemote && Expected(m.after, author) == c.id.sequence + 1;
    var log := [c] + rest;
    forall k | 0 < k < |log| ensures log[k].id.sequence == log[k - 1].id.sequence + 1 {
      if k > 1 { assert log[k] == rest[k - 1] && log[k - 1] == rest[k - 2]; }
    }
  }

  lemma FromAuthorOfMove(m: Move, rest: seq<Control>, author: Id)
    requires Sound(m)
    ensures FromAuthor(m.log + rest, author)
            == FrameOf(m, author) + FromAuthor(rest, author)
  {
    FromAuthorAppend(m.log, rest, author);
    if m.log != [] {
      OneFromAuthor(m.log[0], author);
      assert m.log == [m.log[0]];
    }
  }

  lemma {:induction false} LinkedOrderly(s: Session, moves: seq<Move>, author: Id)
    requires Linked(s, moves)
    ensures Orderly(s, EndOf(s, moves), author, FromAuthor(LogOf(moves), author))
    decreases |moves|
  {
    if moves != [] {
      var m, rest := moves[0], FromAuthor(LogOf(moves[1..]), author);
      LinkedOrderly(m.after, moves[1..], author);
      FromAuthorOfMove(m, LogOf(moves[1..]), author);
      EndOfTail(s, moves);
      OrderlyMove(m, EndOf(s, moves), rest, author);
    }
  }

  lemma EndOfTail(s: Session, moves: seq<Move>)
    requires moves != []
    ensures EndOf(s, moves) == EndOf(moves[0].after, moves[1..])
  {
  }

  /**
   In every run, the frames accepted from one author are consecutive. They start at zero for an
   author not heard from, at the counter for one that was, or at the frame that adds this member;
   and the counter ends one past the last of them.
   */
  lemma SequencesConsecutive(e: Engine, s: Session, steps: seq<Step>, author: Id)
    requires Bound(s)
    ensures Orderly(s, AfterAll(e, s, steps), author, FromAuthor(Log(e, s, steps), author))
  {
    MovesLinked(e, s, steps);
    LinkedOrderly(s, Moves(e, s, steps), author);
  }

  lemma {:induction false} ConsecutiveGap(log: seq<Control>, i: nat, j: nat)
    requires Consecutive(log) && i <= j < |log|
    ensures log[j].id.sequence == log[i].id.sequence + (j - i)
  {
    if i < j { ConsecutiveGap(log, i, j - 1); }
  }

  lemma {:induction false} FromAuthorPlaces(log: seq<Control>, i: nat, j: nat, author: Id) returns (a: nat, b: nat)
    requires i < j < |log| && log[i].id.author == author && log[j].id.author == author
    ensures a < b < |FromAuthor(log, author)|
    ensures FromAuthor(log, author)[a] == log[i] && FromAuthor(log, author)[b] == log[j]
  {
    var rest := FromAuthor(log[1..], author);
    if i == 0 {
      a := 0;
      b := FromAuthorPlace(log[1..], j - 1, author);
      b := b + 1;
    } else {
      a, b := FromAuthorPlaces(log[1..], i - 1, j - 1, author);
      if log[0].id.author == author { a, b := a + 1, b + 1; }
    }
  }

  lemma {:induction false} FromAuthorPlace(log: seq<Control>, j: nat, author: Id) returns (b: nat)
    requires j < |log| && log[j].id.author == author
    ensures b < |FromAuthor(log, author)| && FromAuthor(log, author)[b] == log[j]
  {
    if j == 0 {
      b := 0;
    } else {
      b := FromAuthorPlace(log[1..], j - 1, author);
      if log[0].id.author == author { b := b + 1; }
    }
  }

  /** No control identifier is accepted twice in a run, whoever replays it. */
  lemma NoReplay(e: Engine, s: Session, steps: seq<Step>, i: nat, j: nat)
    requires Bound(s) && i < j < |Log(e, s, steps)|
    ensures Log(e, s, steps)[i].id != Log(e, s, steps)[j].id
  {
    var log := Log(e, s, steps);
    if log[i].id.author == log[j].id.author {
      var author := log[i].id.author;
      SequencesConsecutive(e, s, steps, author);
      var a, b := FromAuthorPlaces(log, i, j, author);
      ConsecutiveGap(FromAuthor(log, author), a, b);
    }
  }

  // ---------- Who speaks for an author ----------

  /** A recipient's pre-key and root, once registered, are never replaced. */
  lemma StepKeepsBindings(e: Engine, s: Session, step: Step, id: Id)
    requires Bound(s) && id in s.roots
    ensures Bound(After(e, s, step)) && id in After(e, s, step).roots
    ensures After(e, s, step).roots[id] == s.roots[id] && After(e, s, step).digests[id] == s.digests[id]
  {
    StepApplies(e, s, step);
  }

  lemma {:induction false} BindingsStay(e: Engine, s: Session, steps: seq<Step>, id: Id)
    requires Bound(s) && id in s.roots
    ensures Bound(AfterAll(e, s, steps)) && id in AfterAll(e, s, steps).roots
    ensures AfterAll(e, s, steps).roots[id] == s.roots[id]
    decreases |steps|
  {
    if steps != [] {
      StepKeepsBindings(e, s, steps[0], id);
      BindingsStay(e, After(e, s, steps[0]), steps[1..], id);
      AfterAllFirst(e, s, steps);
    }
  }

  lemma AfterAllFirst(e: Engine, s: Session, steps: seq<Step>)
    requires steps != []
    ensures AfterAll(e, s, steps) == AfterAll(e, After(e, s, steps[0]), steps[1..])
  {
    var t := After(e, s, steps[0]);
    assert Moves(e, s, steps)[1..] == Moves(e, t, steps[1..]);
    EndOfTail(s, Moves(e, s, steps));
  }

  /** An accepted frame came from its author's registered root, with its direct half exactly when addressed. */
  lemma AcceptedIsAuthentic(e: Engine, s: Session, root: Root, c: Control, d: Option<Direct>)
    requires Processes(e, s, root, c, d).Ok?
    ensures c.group == s.group && c.id.author in s.roots && s.roots[c.id.author] == root
    ensures d.Some? <==> NeedsDirect(s, c)
    ensures d.Some? ==> d.value.recipient == s.me && d.value.control == c.id && d.value.group == s.group
  {
  }

  /**
   Throughout a run, every frame accepted from one author was authenticated by one and the same
   root, whatever was registered, performed or received in between.
   */
  lemma OneRootPerAuthor(e: Engine, s: Session, first: Step, between: seq<Step>, second: Step)
    requires Bound(s) && first.Receive? && second.Receive? && first.control.id.author == second.control.id.author
    requires Accepted(e, s, first) != []
    requires Accepted(e, AfterAll(e, After(e, s, first), between), second) != []
    ensures first.root == second.root
  {
    var author, t := first.control.id.author, After(e, s, first);
    AcceptedIsAuthentic(e, s, first.root, first.control, first.direct);
    StepKeepsBindings(e, s, first, author);
    BindingsStay(e, t, between, author);
    AcceptedIsAuthentic(e, AfterAll(e, t, between), second.root, second.control, second.direct);
  }

  // ---------- Membership ----------

  /** What each local operation does to the members, and that the one who acts stays in the group. */
  lemma LocalMembers(e: Engine, s: Session, action: Action)
    requires Bound(s) && Locally(e, s, action).Ok?
    ensures var next := Locally(e, s, action).value.next.members;
            && s.me in next
            && match action
               case Create(initial) => s.members == {} && next == initial + {s.me} && next <= s.digests.Keys
               case Update => next == s.members
               case Add(added) => added !in s.members && added in s.digests && next == s.members + {added}
               case Remove(removed) => removed in s.members && removed != s.me && next == s.members - {removed}
  {
    LocalApplies(e, s, action);
  }

  function Fold(log: seq<Control>): set<Id> {
    if log == [] then {}
    else
      var before := Fold(log[..|log| - 1]);
      match log[|log| - 1].action
      case Create(initial) => initial
      case Update => before
      case Add(added) => before + {added}
      case Remove(removed) => before - {removed}
  }

  /** When a move makes this session a joiner, the welcome tells it the membership at that point. */
  ghost predicate HonestMove(m: Move, past: seq<Control>) {
    m.log != [] && m.log[0].action == Add(m.before.me) ==> m.welcome + {m.before.me} == Fold(past) + {m.before.me}
  }

  ghost predicate Honest(moves: seq<Move>, past: seq<Control>)
    decreases |moves|
  {
    moves != [] ==> HonestMove(moves[0], past) && Honest(moves[1..], past + moves[0].log)
  }

  /** One move takes the fold of the log one frame further. */
  lemma FoldOne(m: Move, past: seq<Control>)
    requires Sound(m) && HonestMove(m, past)
    requires m.before.members == Fold(past)
             || (m.log != [] && (m.log[0].action.Create? || m.log[0].action == Add(m.before.me)))
    ensures m.after.members == Fold(past + m.log)
  {
    if m.log == [] {
      assert past + m.log == past;
    } else {
      assert m.log == [m.log[0]];
      assert (past + m.log)[..|past + m.log| - 1] == past;
    }
  }

  lemma {:induction false} LinkedFold(s: Session, moves: seq<Move>, past: seq<Control>)
    requires Linked(s, moves) && s.members == Fold(past) && Honest(moves, past)
    ensures EndOf(s, moves).members == Fold(past + LogOf(moves))
    decreases |moves|
  {
    if moves == [] {
      assert past + [] == past;
    } else {
      var m := moves[0];
      FoldOne(m, past);
      LinkedFold(m.after, moves[1..], past + m.log);
      EndOfTail(s, moves);
      assert (past + m.log) + LogOf(moves[1..]) == past + (m.log + LogOf(moves[1..]));
    }
  }

  ghost predicate HonestWelcomes(e: Engine, s: Session, steps: seq<Step>, past: seq<Control>) {
    Honest(Moves(e, s, steps), past)
  }

  /** Membership is the fold of the log: what was in force before the run, then what the run accepted. */
  lemma MembersFollowTheLog(e: Engine, s: Session, steps: seq<Step>, past: seq<Control>)
    requires Bound(s) && s.members == Fold(past) && HonestWelcomes(e, s, steps, past)
    ensures AfterAll(e, s, steps).members == Fold(past + Log(e, s, steps))
  {
    MovesLinked(e, s, steps);
    LinkedFold(s, Moves(e, s, steps), past);
  }

  /**
   A session enters the history at its creation or at the frame that adds it, from whatever it
   held before; from there on it follows the log.
   */
  lemma EntersTheLog(e: Engine, s: Session, step: Step, past: seq<Control>)
    requires Bound(s) && Accepted(e, s, step) != []
    requires var action := Accepted(e, s, step)[0].action; action.Create? || action == Add(s.me)
    requires Accepted(e, s, step)[0].action == Add(s.me) ==> Welcome(e, s, step) + {s.me} == Fold(past) + {s.me}
    ensures After(e, s, step).members == Fold(past + Accepted(e, s, step))
  {
    StepApplies(e, s, step);
    var m := Move(s, After(e, s, step), Accepted(e, s, step), Welcome(e, s, step));
    FoldOne(m, past);
  }

  /**
   Two sessions, with whatever engines, keys and starting points, that have followed the same log
   agree on the members: the creator from an empty past, a joiner from the past it was welcomed into.
   */
  lemma MembersConverge(e: Engine, s: Session, steps: seq<Step>, past: seq<Control>,
                        f: Engine, t: Session, others: seq<Step>, otherPast: seq<Control>)
    requires Bound(s) && s.members == Fold(past) && HonestWelcomes(e, s, steps, past)
    requires Bound(t) && t.members == Fold(otherPast) && HonestWelcomes(f, t, others, otherPast)
    requires past + Log(e, s, steps) == otherPast + Log(f, t, others)
    ensures AfterAll(e, s, steps).members == AfterAll(f, t, others).members
  {
    MembersFollowTheLog(e, s, steps, past);
    MembersFollowTheLog(f, t, others, otherPast);
  }
}

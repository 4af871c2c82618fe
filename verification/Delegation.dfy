/**
 Delegation certificates (crates/dramatis/personae/src/delegation.rs) and the table that
 answers coverage by walking their chains (crates/servitor/src/delegation.rs).

 Cryptography enters twice, as given answers: `authentic` is what verifying a signed
 certificate says, and `idOf` is the content hash that names a certificate.
 */
module Delegation {
  import opened Wrappers
  import opened Segments
  import opened Capability
  import opened CapabilityPath

  type Key = nat
  type Id = nat

  const ZERO_KEY: Key := 0
  const CERTIFICATE_VERSION: nat := 1
  const DENIZEN_DOMAIN := "mere.denizen"

  datatype Parent = Root(authority: Key) | Link(id: Id)

  datatype CapabilityScope = CapabilityScope(domain: string, resource: seq<nat>, pathPrefix: string,
                                             actions: set<string>)

  datatype Certificate = Certificate(
    version: nat,
    parent: Parent,
    issuer: Key,
    subject: Key,
    scope: CapabilityScope,
    notBeforeMs: nat,
    issuedAtMs: nat,
    expiresAtMs: Option<nat>,
    remainingDepth: nat,
    nonce: nat)

  datatype Signed = Signed(certificate: Certificate, authentic: bool)

  type Naming = Certificate -> Id

  // ---------- One certificate ----------

  predicate ScopeWellFormed(s: CapabilityScope) {
    s.domain != "" && s.resource != [] && s.pathPrefix != "" && s.actions != {} && "" !in s.actions
  }

  predicate ScopeAttenuates(child: CapabilityScope, parent: CapabilityScope) {
    && ScopeWellFormed(child) && ScopeWellFormed(parent)
    && child.domain == parent.domain && child.resource == parent.resource
    && PathCovers(parent.pathPrefix, child.pathPrefix)
    && child.actions <= parent.actions
  }

  predicate CertificateWellFormed(c: Certificate) {
    && c.version == CERTIFICATE_VERSION
    && c.issuer != ZERO_KEY && c.subject != ZERO_KEY
    && ScopeWellFormed(c.scope)
    && c.issuedAtMs <= c.notBeforeMs
    && (c.expiresAtMs.Some? ==> c.expiresAtMs.value >= c.notBeforeMs)
  }

  predicate ExpiryWithin(child: Option<nat>, parent: Option<nat>) {
    parent.Some? ==> child.Some? && child.value <= parent.value
  }

  /** The child narrows the parent: scope, actions, lifetime and remaining depth. */
  predicate Attenuates(idOf: Naming, child: Certificate, parent: Certificate) {
    && CertificateWellFormed(child) && CertificateWellFormed(parent)
    && child.parent == Link(idOf(parent))
    && child.issuer == parent.subject
    && ScopeAttenuates(child.scope, parent.scope)
    && child.notBeforeMs >= parent.notBeforeMs
    && ExpiryWithin(child.expiresAtMs, parent.expiresAtMs)
    && parent.remainingDepth > 0
    && child.remainingDepth < parent.remainingDepth
  }

  /** The certificate covers one action at an instant; the expiry instant is still usable. */
  predicate CertificateCovers(c: Certificate, path: string, action: string, atMs: nat) {
    && CertificateWellFormed(c)
    && atMs >= c.notBeforeMs
    && (c.expiresAtMs.Some? ==> atMs <= c.expiresAtMs.value)
    && PathCovers(c.scope.pathPrefix, path)
    && action in c.scope.actions
  }

  /** A link never allows what its parent does not, at any time. */
  lemma AttenuationNarrows(idOf: Naming, child: Certificate, parent: Certificate, path: string, action: string,
                           atMs: nat)
    requires Attenuates(idOf, child, parent) && CertificateCovers(child, path, action, atMs)
    ensures CertificateCovers(parent, path, action, atMs)
  {
    PathCoversTransitive(parent.scope.pathPrefix, child.scope.pathPrefix, path);
  }

  // ---------- The table and its walk ----------

  datatype ChainError =
    | BadSignature(id: Id) | MissingParent(id: Id) | NotAttenuating(id: Id)
    | WrongRoot(id: Id) | Revoked(id: Id) | Cycle(id: Id)

  datatype Table = Table(root: Key, nowMs: nat, certificates: map<Id, Signed>, revoked: set<Id>)

  /** Certificates are filed under their own ids. */
  ghost predicate Filed(idOf: Naming, t: Table) {
    forall id :: id in t.certificates ==> idOf(t.certificates[id].certificate) == id
  }

  /** Ids the walk has still to see; it falls with every link, whatever the table holds. */
  ghost function Unseen(idOf: Naming, t: Table, s: Signed, seen: set<Id>): set<Id> {
    t.certificates.Keys + {idOf(s.certificate)} - seen
  }

  lemma UnseenShrinks(idOf: Naming, t: Table, s: Signed, p: Id, seen: set<Id>)
    requires Filed(idOf, t) && idOf(s.certificate) !in seen && p in t.certificates
    ensures |Unseen(idOf, t, t.certificates[p], seen + {idOf(s.certificate)})| < |Unseen(idOf, t, s, seen)|
  {
    var next := Unseen(idOf, t, t.certificates[p], seen + {idOf(s.certificate)});
    var now := Unseen(idOf, t, s, seen);
    assert next < now;
    assert now == next + (now - next);
  }

  function VerifyFrom(idOf: Naming, t: Table, s: Signed, seen: set<Id>): Result<(), ChainError>
    requires Filed(idOf, t)
    decreases |Unseen(idOf, t, s, seen)|
  {
    var c := s.certificate;
    var id := idOf(c);
    if id in seen then Err(Cycle(id))
    else if id in t.revoked then Err(Revoked(id))
    else if !s.authentic then Err(BadSignature(id))
    else match c.parent {
      case Root(authority) => if authority == t.root then Ok(()) else Err(WrongRoot(id))
      case Link(p) =>
        if p !in t.certificates then Err(MissingParent(p))
        else if !Attenuates(idOf, c, t.certificates[p].certificate) then Err(NotAttenuating(id))
        else
          UnseenShrinks(idOf, t, s, p, seen);
          VerifyFrom(idOf, t, t.certificates[p], seen + {id})
    }
  }

  predicate Verifies(idOf: Naming, t: Table, s: Signed)
    requires Filed(idOf, t)
  {
    VerifyFrom(idOf, t, s, {}).Ok?
  }

  /** `subject` holds `needed` at `mode`, by some held certificate whose chain verifies. */
  predicate TableCovers(idOf: Naming, t: Table, subject: Key, needed: Cap, mode: Mode)
    requires Filed(idOf, t)
  {
    exists id :: id in t.certificates && Grants(idOf, t, id, subject, needed, mode)
  }

  predicate Grants(idOf: Naming, t: Table, id: Id, subject: Key, needed: Cap, mode: Mode)
    requires Filed(idOf, t) && id in t.certificates
  {
    var s := t.certificates[id];
    && s.certificate.subject == subject
    && CertificateCovers(s.certificate, CapPath(needed), ModeAction(mode), t.nowMs)
    && Verifies(idOf, t, s)
  }

  // ---------- Authority along a chain ----------

  /** The certificate at the top of a verified chain. */
  ghost function RootOf(idOf: Naming, t: Table, s: Signed, seen: set<Id>): Signed
    requires Filed(idOf, t) && VerifyFrom(idOf, t, s, seen).Ok?
    decreases |Unseen(idOf, t, s, seen)|
  {
    match s.certificate.parent {
      case Root(_) => s
      case Link(p) =>
        UnseenShrinks(idOf, t, s, p, seen);
        RootOf(idOf, t, t.certificates[p], seen + {idOf(s.certificate)})
    }
  }

  /** How many links lie between a certificate and its root. */
  ghost function LinksToRoot(idOf: Naming, t: Table, s: Signed, seen: set<Id>): nat
    requires Filed(idOf, t) && VerifyFrom(idOf, t, s, seen).Ok?
    decreases |Unseen(idOf, t, s, seen)|
  {
    match s.certificate.parent {
      case Root(_) => 0
      case Link(p) =>
        UnseenShrinks(idOf, t, s, p, seen);
        1 + LinksToRoot(idOf, t, t.certificates[p], seen + {idOf(s.certificate)})
    }
  }

  /**
   Authority never grows along a chain of any length: whatever a verified certificate covers,
   the root certificate at its end covers, and the chain is no longer than that root allows.
   */
  lemma {:induction false} AuthorityNeverGrows(idOf: Naming, t: Table, s: Signed, seen: set<Id>,
                                               path: string, action: string, atMs: nat)
    requires Filed(idOf, t) && VerifyFrom(idOf, t, s, seen).Ok?
    ensures var r := RootOf(idOf, t, s, seen);
            && r.certificate.parent == Root(t.root) && r.authentic && idOf(r.certificate) !in t.revoked
            && (CertificateCovers(s.certificate, path, action, atMs) ==>
                CertificateCovers(r.certificate, path, action, atMs))
            && s.certificate.remainingDepth + LinksToRoot(idOf, t, s, seen) <= r.certificate.remainingDepth
    decreases |Unseen(idOf, t, s, seen)|
  {
    match s.certificate.parent {
      case Root(_) =>
      case Link(p) =>
        UnseenShrinks(idOf, t, s, p, seen);
        AuthorityNeverGrows(idOf, t, t.certificates[p], seen + {idOf(s.certificate)}, path, action, atMs);
        if CertificateCovers(s.certificate, path, action, atMs) {
          AttenuationNarrows(idOf, s.certificate, t.certificates[p].certificate, path, action, atMs);
        }
    }
  }

  /** So if the table covers a need, a held, authentic, unrevoked certificate that names the root covers it. */
  lemma CoveredByARoot(idOf: Naming, t: Table, subject: Key, needed: Cap, mode: Mode) returns (id: Id, root: Id)
    requires Filed(idOf, t) && TableCovers(idOf, t, subject, needed, mode)
    ensures id in t.certificates && Grants(idOf, t, id, subject, needed, mode)
    ensures root in t.certificates && t.certificates[root] == RootOf(idOf, t, t.certificates[id], {})
    ensures NamesTheRoot(t, root)
    ensures CertificateCovers(t.certificates[root].certificate, CapPath(needed), ModeAction(mode), t.nowMs)
  {
    id :| id in t.certificates && Grants(idOf, t, id, subject, needed, mode);
    root := RootHeld(idOf, t, id, CapPath(needed), ModeAction(mode));
  }

  /** Depth strictly falls along links, so for a held certificate the walk never meets itself. */
  lemma {:induction false} HeldChainsDoNotLoop(idOf: Naming, t: Table, id: Id, seen: set<Id>)
    requires Filed(idOf, t) && id in t.certificates
    requires seen <= t.certificates.Keys
    requires forall x :: x in seen ==>
               t.certificates[x].certificate.remainingDepth < t.certificates[id].certificate.remainingDepth
    ensures var r := VerifyFrom(idOf, t, t.certificates[id], seen); r.Ok? || !r.error.Cycle?
    decreases |Unseen(idOf, t, t.certificates[id], seen)|
  {
    var s := t.certificates[id];
    match s.certificate.parent {
      case Root(_) =>
      case Link(p) =>
        if p in t.certificates && Attenuates(idOf, s.certificate, t.certificates[p].certificate) {
          UnseenShrinks(idOf, t, s, p, seen);
          HeldChainsDoNotLoop(idOf, t, p, seen + {id});
        }
    }
  }

  // ---------- Revocation ----------

  /** The ids met by following parents, whether or not the links are good. */
  ghost function AncestorIds(idOf: Naming, t: Table, s: Signed, seen: set<Id>): set<Id>
    requires Filed(idOf, t)
    decreases |Unseen(idOf, t, s, seen)|
  {
    var id := idOf(s.certificate);
    if id in seen then {}
    else match s.certificate.parent {
      case Root(_) => {id}
      case Link(p) =>
        if p !in t.certificates then {id}
        else
          UnseenShrinks(idOf, t, s, p, seen);
          {id} + AncestorIds(idOf, t, t.certificates[p], seen + {id})
    }
  }

  function WithRevoked(t: Table, more: set<Id>): Table {
    t.(revoked := t.revoked + more)
  }

  lemma {:induction false} RevocationDisables(idOf: Naming, t: Table, more: set<Id>, s: Signed, seen: set<Id>)
    requires Filed(idOf, t) && !(AncestorIds(idOf, t, s, seen) !! more)
    ensures VerifyFrom(idOf, WithRevoked(t, more), s, seen).Err?
    decreases |Unseen(idOf, t, s, seen)|
  {
    var id := idOf(s.certificate);
    if id !in more && s.certificate.parent.Link? && s.certificate.parent.id in t.certificates {
      var p := s.certificate.parent.id;
      UnseenShrinks(idOf, t, s, p, seen);
      assert AncestorIds(idOf, t, s, seen) == {id} + AncestorIds(idOf, t, t.certificates[p], seen + {id});
      RevocationDisables(idOf, t, more, t.certificates[p], seen + {id});
    }
  }

  /** The walk goes on from a good link to its parent. */
  lemma VerifyGoesOn(idOf: Naming, t: Table, s: Signed, seen: set<Id>, p: Id)
    requires Filed(idOf, t) && s.certificate.parent == Link(p) && p in t.certificates
    requires idOf(s.certificate) !in seen && idOf(s.certificate) !in t.revoked && s.authentic
    requires Attenuates(idOf, s.certificate, t.certificates[p].certificate)
    ensures VerifyFrom(idOf, t, s, seen) == VerifyFrom(idOf, t, t.certificates[p], seen + {idOf(s.certificate)})
  {
    UnseenShrinks(idOf, t, s, p, seen);
  }

  lemma AncestorsGoOn(idOf: Naming, t: Table, s: Signed, seen: set<Id>, p: Id)
    requires Filed(idOf, t) && s.certificate.parent == Link(p) && p in t.certificates && idOf(s.certificate) !in seen
    ensures AncestorIds(idOf, t, s, seen)
            == {idOf(s.certificate)} + AncestorIds(idOf, t, t.certificates[p], seen + {idOf(s.certificate)})
  {
    UnseenShrinks(idOf, t, s, p, seen);
  }

  lemma {:induction false} RevocationSpares(idOf: Naming, t: Table, more: set<Id>, s: Signed, seen: set<Id>)
    requires Filed(idOf, t) && AncestorIds(idOf, t, s, seen) !! more
    ensures VerifyFrom(idOf, WithRevoked(t, more), s, seen) == VerifyFrom(idOf, t, s, seen)
    decreases |Unseen(idOf, t, s, seen)|
  {
    var id, parent := idOf(s.certificate), s.certificate.parent;
    if id !in seen {
      assert id in AncestorIds(idOf, t, s, seen);
      if id !in t.revoked && s.authentic && parent.Link? && parent.id in t.certificates
         && Attenuates(idOf, s.certificate, t.certificates[parent.id].certificate) {
        VerifyGoesOn(idOf, t, s, seen, parent.id);
        VerifyGoesOn(idOf, WithRevoked(t, more), s, seen, parent.id);
        AncestorsGoOn(idOf, t, s, seen, parent.id);
        UnseenShrinks(idOf, t, s, parent.id, seen);
        RevocationSpares(idOf, t, more, t.certificates[parent.id], seen + {id});
      }
    }
  }

  /**
   Revoking ids disables exactly the certificates whose ancestor path includes one of them; for
   every other certificate the whole answer, error included, is unchanged.
   */
  lemma RevocationIsExact(idOf: Naming, t: Table, more: set<Id>, s: Signed, seen: set<Id>)
    requires Filed(idOf, t)
    ensures VerifyFrom(idOf, WithRevoked(t, more), s, seen).Ok?
            <==> VerifyFrom(idOf, t, s, seen).Ok? && AncestorIds(idOf, t, s, seen) !! more
    ensures AncestorIds(idOf, t, s, seen) !! more ==>
              VerifyFrom(idOf, WithRevoked(t, more), s, seen) == VerifyFrom(idOf, t, s, seen)
  {
    if AncestorIds(idOf, t, s, seen) !! more {
      RevocationSpares(idOf, t, more, s, seen);
    } else {
      RevocationDisables(idOf, t, more, s, seen);
    }
  }

  /** The ids a verified chain walks through include its root's. */
  lemma {:induction false} RootIsAncestor(idOf: Naming, t: Table, s: Signed, seen: set<Id>)
    requires Filed(idOf, t) && VerifyFrom(idOf, t, s, seen).Ok?
    ensures idOf(RootOf(idOf, t, s, seen).certificate) in AncestorIds(idOf, t, s, seen)
    ensures s == RootOf(idOf, t, s, seen) || RootOf(idOf, t, s, seen) in t.certificates.Values
    decreases |Unseen(idOf, t, s, seen)|
  {
    if s.certificate.parent.Link? {
      var p := s.certificate.parent.id;
      UnseenShrinks(idOf, t, s, p, seen);
      assert t.certificates[p] in t.certificates.Values;
      RootIsAncestor(idOf, t, t.certificates[p], seen + {idOf(s.certificate)});
    }
  }

  // ---------- Who issued the root certificate ----------

  /** Held, authentic, unrevoked, and naming the table's root as its parent. */
  predicate NamesTheRoot(t: Table, id: Id)
    requires id in t.certificates
  {
    var s := t.certificates[id];
    s.authentic && id !in t.revoked && s.certificate.parent == Root(t.root)
  }

  /** The certificate covers something right now. */
  ghost predicate CoversSomething(t: Table, c: Certificate) {
    exists needed, mode :: CertificateCovers(c, CapPath(needed), ModeAction(mode), t.nowMs)
  }

  /** The root of a verified held chain is itself held and covers at least as much. */
  lemma RootHeld(idOf: Naming, t: Table, id: Id, path: string, action: string) returns (root: Id)
    requires Filed(idOf, t) && id in t.certificates && Verifies(idOf, t, t.certificates[id])
    requires CertificateCovers(t.certificates[id].certificate, path, action, t.nowMs)
    ensures root in t.certificates && t.certificates[root] == RootOf(idOf, t, t.certificates[id], {})
    ensures NamesTheRoot(t, root) && CertificateCovers(t.certificates[root].certificate, path, action, t.nowMs)
  {
    AuthorityNeverGrows(idOf, t, t.certificates[id], {}, path, action, t.nowMs);
    RootIsAncestor(idOf, t, t.certificates[id], {});
    root :| root in t.certificates && t.certificates[root] == RootOf(idOf, t, t.certificates[id], {});
  }

  /** Every answer the table gives comes by a chain that ends in a good certificate. */
  ghost predicate AnswersEndIn(idOf: Naming, t: Table, good: Certificate -> bool)
    requires Filed(idOf, t)
  {
    forall id, subject, needed, mode :: id in t.certificates && Grants(idOf, t, id, subject, needed, mode) ==>
      good(RootOf(idOf, t, t.certificates[id], {}).certificate)
  }

  /** Each held, authentic, unrevoked certificate that names the root and covers something now is good. */
  ghost predicate RootsAre(t: Table, good: Certificate -> bool) {
    forall id :: id in t.certificates && NamesTheRoot(t, id) && CoversSomething(t, t.certificates[id].certificate) ==>
      good(t.certificates[id].certificate)
  }

  /** The certificates that name the root decide what answers can end in. */
  lemma RootsDecide(idOf: Naming, t: Table, good: Certificate -> bool)
    requires Filed(idOf, t)
    ensures AnswersEndIn(idOf, t, good) <==> RootsAre(t, good)
  {
    if AnswersEndIn(idOf, t, good) {
      forall id | id in t.certificates && NamesTheRoot(t, id) && CoversSomething(t, t.certificates[id].certificate)
        ensures good(t.certificates[id].certificate)
      {
        var c := t.certificates[id].certificate;
        var needed, mode :| CertificateCovers(c, CapPath(needed), ModeAction(mode), t.nowMs);
        assert Grants(idOf, t, id, c.subject, needed, mode);
      }
    } else {
      var id, subject, needed, mode :| id in t.certificates && Grants(idOf, t, id, subject, needed, mode)
        && !good(RootOf(idOf, t, t.certificates[id], {}).certificate);
      var root := RootHeld(idOf, t, id, CapPath(needed), ModeAction(mode));
      assert CoversSomething(t, t.certificates[root].certificate);
    }
  }

  ghost predicate AnswersComeFromTheRoot(idOf: Naming, t: Table)
    requires Filed(idOf, t)
  {
    AnswersEndIn(idOf, t, (c: Certificate) => c.issuer == t.root)
  }

  /**
   The walk asks that a chain end in a certificate naming the root, not that the root issued it.
   So every answer traces to the root exactly when each held, authentic, unrevoked certificate
   that names the root and covers something now was issued by the root.
   */
  lemma AnswersComeFromTheRootIff(idOf: Naming, t: Table)
    requires Filed(idOf, t)
    ensures AnswersComeFromTheRoot(idOf, t)
            <==> forall id :: id in t.certificates && NamesTheRoot(t, id) &&
                              CoversSomething(t, t.certificates[id].certificate) ==>
                   t.certificates[id].certificate.issuer == t.root
  {
    RootsDecide(idOf, t, (c: Certificate) => c.issuer == t.root);
  }

  /** The smallest table of the other kind: one certificate that names the root and has another issuer. */
  lemma AnotherIssuerExample(idOf: Naming, root: Key, issuer: Key, subject: Key, resource: seq<nat>, nowMs: nat)
    requires issuer != root && issuer != ZERO_KEY && subject != ZERO_KEY && resource != []
    ensures var c := Everything(DENIZEN_DOMAIN, root, issuer, subject, resource, nowMs);
            var t := Table(root, nowMs, map[idOf(c) := Signed(c, true)], {});
            && Filed(idOf, t) && TableCovers(idOf, t, subject, Scope([]), Delegate) && !AnswersComeFromTheRoot(idOf, t)
  {
    var c := Everything(DENIZEN_DOMAIN, root, issuer, subject, resource, nowMs);
    var t := Table(root, nowMs, map[idOf(c) := Signed(c, true)], {});
    ActionsAreModeOrder(Delegate, Delegate);
    assert Grants(idOf, t, idOf(c), subject, Scope([]), Delegate);
    assert RootOf(idOf, t, t.certificates[idOf(c)], {}).certificate == c;
  }

  /** A certificate over the whole scope at the highest mode, without an end and without onward delegation. */
  function Everything(domain: string, root: Key, issuer: Key, subject: Key, resource: seq<nat>,
                      nowMs: nat): Certificate
  {
    var scope := CapabilityScope(domain, resource, CapPath(Scope([])), ModeActions(Delegate));
    Certificate(CERTIFICATE_VERSION, Root(root), issuer, subject, scope, nowMs, nowMs, None, 0, 0)
  }

  // ---------- Which application a certificate belongs to ----------

  /** No link leaves the domain or the resource of its chain's root. */
  lemma {:induction false} ChainKeepsDomain(idOf: Naming, t: Table, s: Signed, seen: set<Id>)
    requires Filed(idOf, t) && VerifyFrom(idOf, t, s, seen).Ok?
    ensures RootOf(idOf, t, s, seen).certificate.scope.domain == s.certificate.scope.domain
    ensures RootOf(idOf, t, s, seen).certificate.scope.resource == s.certificate.scope.resource
    decreases |Unseen(idOf, t, s, seen)|
  {
    match s.certificate.parent {
      case Root(_) =>
      case Link(p) =>
        UnseenShrinks(idOf, t, s, p, seen);
        ChainKeepsDomain(idOf, t, t.certificates[p], seen + {idOf(s.certificate)});
    }
  }

  /** Every certificate the table answers by was made for a denizen. */
  ghost predicate AnswersForDenizens(idOf: Naming, t: Table)
    requires Filed(idOf, t)
  {
    forall id, subject, needed, mode :: id in t.certificates && Grants(idOf, t, id, subject, needed, mode) ==>
      t.certificates[id].certificate.scope.domain == DENIZEN_DOMAIN
  }

  /**
   Answering compares neither domain nor resource. So no certificate of another application is
   ever answered by exactly when none of those that name the root, are authentic and unrevoked
   and cover something now belongs to one.
   */
  lemma AnswersForDenizensIff(idOf: Naming, t: Table)
    requires Filed(idOf, t)
    ensures AnswersForDenizens(idOf, t)
            <==> forall id :: id in t.certificates && NamesTheRoot(t, id) &&
                              CoversSomething(t, t.certificates[id].certificate) ==>
                   t.certificates[id].certificate.scope.domain == DENIZEN_DOMAIN
  {
    var good := (c: Certificate) => c.scope.domain == DENIZEN_DOMAIN;
    RootsDecide(idOf, t, good);
    forall id, subject, needed, mode | id in t.certificates && Grants(idOf, t, id, subject, needed, mode)
      ensures good(RootOf(idOf, t, t.certificates[id], {}).certificate)
              <==> t.certificates[id].certificate.scope.domain == DENIZEN_DOMAIN
    {
      ChainKeepsDomain(idOf, t, t.certificates[id], {});
    }
  }

  /** The smallest table of the other kind: the root's own certificate, made for another application. */
  lemma AnotherDomainExample(idOf: Naming, domain: string, root: Key, subject: Key, resource: seq<nat>, nowMs: nat)
    requires domain != "" && domain != DENIZEN_DOMAIN && root != ZERO_KEY && subject != ZERO_KEY && resource != []
    ensures var c := Everything(domain, root, root, subject, resource, nowMs);
            var t := Table(root, nowMs, map[idOf(c) := Signed(c, true)], {});
            && Filed(idOf, t) && TableCovers(idOf, t, subject, Scope([]), Delegate)
            && AnswersComeFromTheRoot(idOf, t) && !AnswersForDenizens(idOf, t)
  {
    var c := Everything(domain, root, root, subject, resource, nowMs);
    var t := Table(root, nowMs, map[idOf(c) := Signed(c, true)], {});
    ActionsAreModeOrder(Delegate, Delegate);
    assert Grants(idOf, t, idOf(c), subject, Scope([]), Delegate);
    AnswersComeFromTheRootIff(idOf, t);
  }
}

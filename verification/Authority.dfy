/**
 The two authorities of crates/servitor: the flat grant table (grant.rs) and the signed
 delegation table (delegation.rs), the latter as the object the host keeps, and the theorem
 that root certificates answer as grants do.
 */
module Authority {
  import opened Wrappers
  import opened Capability
  import opened CapabilityPath
  import opened Delegation

  // ---------- Grants ----------

  datatype Grant = Grant(subject: Key, cap: Cap, mode: Mode, expiresAtMs: Option<nat>)

  /** A bounded grant has expired from its bound on. */
  predicate Expired(g: Grant, nowMs: nat) {
    g.expiresAtMs.Some? && nowMs >= g.expiresAtMs.value
  }

  predicate GrantCovers(g: Grant, nowMs: nat, subject: Key, needed: Cap, mode: Mode) {
    !Expired(g, nowMs) && g.subject == subject && ModeCovers(g.mode, mode) && Covers(g.cap, needed)
  }

  predicate GrantsCover(grants: seq<Grant>, nowMs: nat, subject: Key, needed: Cap, mode: Mode) {
    exists i :: 0 <= i < |grants| && GrantCovers(grants[i], nowMs, subject, needed, mode)
  }

  // ---------- Root certificates for grants ----------

  function ScopeFor(cap: Cap, mode: Mode, resource: seq<nat>): CapabilityScope {
    CapabilityScope(DENIZEN_DOMAIN, resource, CapPath(cap), ModeActions(mode))
  }

  function RootCertificate(issuer: Key, g: Grant, resource: seq<nat>, issuedAtMs: nat, depth: nat,
                           nonce: nat): Certificate
  {
    Certificate(CERTIFICATE_VERSION, Root(issuer), issuer, g.subject, ScopeFor(g.cap, g.mode, resource),
                issuedAtMs, issuedAtMs, g.expiresAtMs, depth, nonce)
  }

  /** The certificate is the root's own issue of the grant, for some resource, instant, depth and nonce. */
  predicate Issues(root: Key, c: Certificate, g: Grant) {
    c == RootCertificate(root, g, c.scope.resource, c.issuedAtMs, c.remainingDepth, c.nonce)
  }

  /** Held, authentic, unrevoked, well formed and already begun. */
  predicate InForce(t: Table, id: Id)
    requires id in t.certificates
  {
    var s := t.certificates[id];
    s.authentic && id !in t.revoked && CertificateWellFormed(s.certificate) && s.certificate.notBeforeMs <= t.nowMs
  }

  /** The table holds one in-force root certificate for each grant, and nothing else. */
  ghost predicate Mirrors(idOf: Naming, t: Table, grants: seq<Grant>) {
    && Filed(idOf, t)
    && (forall id :: id in t.certificates ==>
          InForce(t, id) && exists i :: 0 <= i < |grants| && Issues(t.root, t.certificates[id].certificate, grants[i]))
    && (forall i :: 0 <= i < |grants| ==>
          Pathable(grants[i].cap) &&
           exists id :: id in t.certificates && Issues(t.root, t.certificates[id].certificate, grants[i]))
  }

  /** What a certificate issued for a grant covers, by the grant's own terms. */
  lemma IssuedCovers(root: Key, c: Certificate, g: Grant, nowMs: nat, needed: Cap, mode: Mode)
    requires Issues(root, c, g) && CertificateWellFormed(c) && c.notBeforeMs <= nowMs
    requires Pathable(g.cap) && Pathable(needed)
    ensures CertificateCovers(c, CapPath(needed), ModeAction(mode), nowMs)
            <==> && (g.expiresAtMs.Some? ==> nowMs <= g.expiresAtMs.value)
                 && ModeCovers(g.mode, mode) && Covers(g.cap, needed)
  {
    PathIsOrderEmbedding(g.cap, needed);
    ActionsAreModeOrder(g.mode, mode);
  }

  /** One certificate answers as its grant, except at the very instant the grant's bound names. */
  lemma CertificateAnswersAsGrant(idOf: Naming, t: Table, id: Id, g: Grant, subject: Key, needed: Cap, mode: Mode)
    requires Filed(idOf, t) && id in t.certificates && InForce(t, id)
    requires Issues(t.root, t.certificates[id].certificate, g)
    requires Pathable(g.cap) && Pathable(needed)
    ensures g.expiresAtMs != Some(t.nowMs) ==>
              (Grants(idOf, t, id, subject, needed, mode) <==> GrantCovers(g, t.nowMs, subject, needed, mode))
    ensures g.expiresAtMs == Some(t.nowMs) ==>
              !GrantCovers(g, t.nowMs, subject, needed, mode)
              && (Grants(idOf, t, id, subject, needed, mode)
                  <==> g.subject == subject && ModeCovers(g.mode, mode) && Covers(g.cap, needed))
  {
    IssuedCovers(t.root, t.certificates[id].certificate, g, t.nowMs, needed, mode);
    assert Verifies(idOf, t, t.certificates[id]);
  }

  /** What a mirrored grant covers, the table covers. */
  lemma GrantsInTable(idOf: Naming, t: Table, grants: seq<Grant>, subject: Key, needed: Cap, mode: Mode)
    requires Mirrors(idOf, t, grants) && Pathable(needed)
    requires GrantsCover(grants, t.nowMs, subject, needed, mode)
    ensures TableCovers(idOf, t, subject, needed, mode)
  {
    var i :| 0 <= i < |grants| && GrantCovers(grants[i], t.nowMs, subject, needed, mode);
    var id :| id in t.certificates && Issues(t.root, t.certificates[id].certificate, grants[i]);
    CertificateAnswersAsGrant(idOf, t, id, grants[i], subject, needed, mode);
    assert Grants(idOf, t, id, subject, needed, mode);
  }

  /** A grant whose bound is the present instant, yet whose capability no other grant covers. */
  predicate AtItsBoundAlone(grants: seq<Grant>, nowMs: nat, i: nat)
    requires i < |grants|
  {
    var g := grants[i];
    g.expiresAtMs == Some(nowMs) && !GrantsCover(grants, nowMs, g.subject, g.cap, g.mode)
  }

  /** What covers a grant covers what the grant covers. */
  lemma CoveredAgain(grants: seq<Grant>, nowMs: nat, g: Grant, subject: Key, needed: Cap, mode: Mode)
    requires GrantsCover(grants, nowMs, g.subject, g.cap, g.mode)
    requires g.subject == subject && ModeCovers(g.mode, mode) && Covers(g.cap, needed)
    ensures GrantsCover(grants, nowMs, subject, needed, mode)
  {
    var j :| 0 <= j < |grants| && GrantCovers(grants[j], nowMs, g.subject, g.cap, g.mode);
    CoverageIsPartialOrder(grants[j].cap, g.cap, needed);
    assert GrantCovers(grants[j], nowMs, subject, needed, mode);
  }

  lemma TableInGrants(idOf: Naming, t: Table, grants: seq<Grant>, subject: Key, needed: Cap, mode: Mode)
    requires Mirrors(idOf, t, grants) && Pathable(needed)
    requires forall i: nat | i < |grants| :: !AtItsBoundAlone(grants, t.nowMs, i)
    requires TableCovers(idOf, t, subject, needed, mode)
    ensures GrantsCover(grants, t.nowMs, subject, needed, mode)
  {
    var id :| id in t.certificates && Grants(idOf, t, id, subject, needed, mode);
    var i :| 0 <= i < |grants| && Issues(t.root, t.certificates[id].certificate, grants[i]);
    var g := grants[i];
    CertificateAnswersAsGrant(idOf, t, id, g, subject, needed, mode);
    if g.expiresAtMs == Some(t.nowMs) {
      assert !AtItsBoundAlone(grants, t.nowMs, i);
      CoveredAgain(grants, t.nowMs, g, subject, needed, mode);
    } else {
      assert GrantCovers(grants[i], t.nowMs, subject, needed, mode);
    }
  }

  /** A table that mirrors grants answers for denizens only, and only by what the root itself issued. */
  lemma MirroredAnswersAreTheRoots(idOf: Naming, t: Table, grants: seq<Grant>)
    requires Mirrors(idOf, t, grants)
    ensures AnswersForDenizens(idOf, t) && AnswersComeFromTheRoot(idOf, t)
  {
    forall id | id in t.certificates
      ensures t.certificates[id].certificate.scope.domain == DENIZEN_DOMAIN
      ensures t.certificates[id].certificate.issuer == t.root
    {
      var i :| 0 <= i < |grants| && Issues(t.root, t.certificates[id].certificate, grants[i]);
    }
    AnswersForDenizensIff(idOf, t);
    AnswersComeFromTheRootIff(idOf, t);
  }

  /**
   A table of in-force root certificates answers every question as the flat grant table does
   exactly when no grant stands alone at its bound: a certificate is still usable at the instant
   its bound names, a grant no longer. Open-ended grants always qualify.
   */
  lemma TableAnswersAsGrants(idOf: Naming, t: Table, grants: seq<Grant>)
    requires Mirrors(idOf, t, grants)
    ensures (forall subject, needed, mode | Pathable(needed) ::
               TableCovers(idOf, t, subject, needed, mode) <==> GrantsCover(grants, t.nowMs, subject, needed, mode))
            <==> (forall i: nat | i < |grants| :: !AtItsBoundAlone(grants, t.nowMs, i))
  {
    if i: nat :| i < |grants| && AtItsBoundAlone(grants, t.nowMs, i) {
      var g := grants[i];
      var id :| id in t.certificates && Issues(t.root, t.certificates[id].certificate, g);
      BoundIsWhereTheyDiffer(idOf, t, id, g);
      assert Pathable(g.cap) && TableCovers(idOf, t, g.subject, g.cap, g.mode);
    } else {
      forall subject, needed, mode | Pathable(needed)
        ensures TableCovers(idOf, t, subject, needed, mode) <==> GrantsCover(grants, t.nowMs, subject, needed, mode)
      {
        if TableCovers(idOf, t, subject, needed, mode) { TableInGrants(idOf, t, grants, subject, needed, mode); }
        if GrantsCover(grants, t.nowMs, subject, needed, mode) {
          GrantsInTable(idOf, t, grants, subject, needed, mode);
        }
      }
    }
  }

  /** At the bound itself the two disagree about the very capability granted. */
  lemma BoundIsWhereTheyDiffer(idOf: Naming, t: Table, id: Id, g: Grant)
    requires Filed(idOf, t) && id in t.certificates && InForce(t, id)
    requires Issues(t.root, t.certificates[id].certificate, g) && Pathable(g.cap)
    requires g.expiresAtMs == Some(t.nowMs)
    ensures TableCovers(idOf, t, g.subject, g.cap, g.mode)
    ensures !GrantsCover([g], t.nowMs, g.subject, g.cap, g.mode)
  {
    CoverageIsPartialOrder(g.cap, g.cap, g.cap);
    CertificateAnswersAsGrant(idOf, t, id, g, g.subject, g.cap, g.mode);
    assert Grants(idOf, t, id, g.subject, g.cap, g.mode);
  }

  // ---------- The table the host keeps ----------

  class DelegationTable {
    const idOf: Naming
    const root: Key
    var nowMs: nat
    var certificates: map<Id, Signed>
    var revoked: set<Id>

    /** The table as a value, for everything proved above. */
    function Contents(): Table
      reads this
    {
      Table(root, nowMs, certificates, revoked)
    }

    ghost predicate Valid()
      reads this
    {
      Filed(idOf, Contents())
    }

    constructor (idOf: Naming, root: Key)
      ensures Valid() && Contents() == Table(root, 0, map[], {}) && this.idOf == idOf
    {
      this.idOf, this.root := idOf, root;
      nowMs, certificates, revoked := 0, map[], {};
    }

    method SetNow(nowMs: nat)
      requires Valid()
      modifies this`nowMs
      ensures Valid() && Contents() == old(Contents()).(nowMs := nowMs)
    {
      this.nowMs := nowMs;
    }

    method Adopt(signed: Signed)
      requires Valid()
      modifies this`certificates
      ensures Valid()
      ensures Contents() == old(Contents()).(certificates := old(certificates)[idOf(signed.certificate) := signed])
    {
      certificates := certificates[idOf(signed.certificate) := signed];
    }

    /** Record a revocation; says whether it is news. */
    method Revoke(id: Id) returns (news: bool)
      requires Valid()
      modifies this`revoked
      ensures Valid() && Contents() == WithRevoked(old(Contents()), {id})
      ensures news <==> id !in old(revoked)
    {
      news := id !in revoked;
      revoked := revoked + {id};
    }

    /** The recursive walk, with the ids it has met. */
    method VerifyInner(signed: Signed, seen: set<Id>) returns (r: Result<(), ChainError>)
      requires Valid()
      ensures r == VerifyFrom(idOf, Contents(), signed, seen)
      decreases |Unseen(idOf, Contents(), signed, seen)|
    {
      var id := idOf(signed.certificate);
      if id in seen { return Err(Cycle(id)); }
      if id in revoked { return Err(Revoked(id)); }
      if !signed.authentic { return Err(BadSignature(id)); }
      match signed.certificate.parent {
        case Root(authority) =>
          if authority == root { return Ok(()); }
          return Err(WrongRoot(id));
        case Link(p) =>
          if p !in certificates { return Err(MissingParent(p)); }
          var parent := certificates[p];
          if !Attenuates(idOf, signed.certificate, parent.certificate) { return Err(NotAttenuating(id)); }
          UnseenShrinks(idOf, Contents(), signed, p, seen);
          r := VerifyInner(parent, seen + {id});
      }
    }

    /** Ask each held certificate in turn. */
    method CoversNeed(subject: Key, needed: Cap, mode: Mode) returns (covered: bool)
      requires Valid()
      ensures covered <==> TableCovers(idOf, Contents(), subject, needed, mode)
    {
      var path, action := CapPath(needed), ModeAction(mode);
      var left := certificates.Keys;
      while left != {}
        invariant left <= certificates.Keys
        invariant forall id :: id in certificates && id !in left ==>
            !Grants(idOf, Contents(), id, subject, needed, mode)
        decreases left
      {
        var id :| id in left;
        var signed := certificates[id];
        var verdict := VerifyInner(signed, {});
        if signed.certificate.subject == subject
           && CertificateCovers(signed.certificate, path, action, nowMs)
           && verdict.Ok?
        {
          assert Grants(idOf, Contents(), id, subject, needed, mode);
          return true;
        }
        left := left - {id};
      }
      covered := false;
    }

    method RevokeAll(ids: set<Id>) returns (count: nat)
      requires Valid()
      modifies this`revoked
      ensures Valid() && Contents() == WithRevoked(old(Contents()), ids)
      ensures count == |ids - old(revoked)|
    {
      var left := ids;
      ghost var done: set<Id> := {};
      count := 0;
      while left != {}
        invariant Valid() && done + left == ids && done !! left
        invariant revoked == old(revoked) + done
        invariant count == |done - old(revoked)|
        decreases left
      {
        var id :| id in left;
        var news := Revoke(id);
        CountOneMore(done, id, old(revoked));
        if news { count := count + 1; }
        done := done + {id};
        left := left - {id};
      }
      assert done == ids;
    }

    /** Revoke everything the root issued directly to `subject`, counting what was not yet revoked. */
    method RevokeRootGrants(subject: Key) returns (count: nat)
      requires Valid()
      modifies this`revoked
      ensures Valid() && Contents() == WithRevoked(old(Contents()), RootIds(old(Contents()), subject))
      ensures count == |RootIds(old(Contents()), subject) - old(revoked)|
    {
      count := RevokeAll(RootIds(Contents(), subject));
    }
  }

  lemma CountOneMore(done: set<Id>, id: Id, known: set<Id>)
    requires id !in done
    ensures |(done + {id}) - known| == |done - known| + if id in known then 0 else 1
  {
    assert (done + {id}) - known == (done - known) + if id in known then {} else {id};
  }

  /** The root certificates held for one subject. */
  function RootIds(t: Table, subject: Key): set<Id> {
    set id | id in t.certificates && t.certificates[id].certificate.subject == subject
             && t.certificates[id].certificate.parent.Root?
  }

  /**
   Uninstalling cascades: once a subject's root certificates are revoked, no held certificate
   whose chain ends in a root certificate for that subject verifies.
   */
  lemma UninstallCascades(idOf: Naming, t: Table, subject: Key, id: Id)
    requires Filed(idOf, t) && id in t.certificates
    requires Verifies(idOf, WithRevoked(t, RootIds(t, subject)), t.certificates[id])
    ensures RootOf(idOf, WithRevoked(t, RootIds(t, subject)), t.certificates[id], {}).certificate.subject != subject
  {
    var gone := RootIds(t, subject);
    var t' := WithRevoked(t, gone);
    var s := t.certificates[id];
    var r := RootOf(idOf, t', s, {});
    AuthorityNeverGrows(idOf, t', s, {}, "", "", 0);
    RootIsAncestor(idOf, t', s, {});
  }

  /** Among the ids a verified chain walks through, only its root's names a root certificate. */
  lemma {:induction false} OneRootOnTheWay(idOf: Naming, t: Table, s: Signed, seen: set<Id>, x: Id)
    requires Filed(idOf, t) && VerifyFrom(idOf, t, s, seen).Ok? && x in AncestorIds(idOf, t, s, seen)
    requires idOf(s.certificate) in t.certificates && t.certificates[idOf(s.certificate)] == s
    ensures x in t.certificates
    ensures t.certificates[x].certificate.parent.Root? ==> t.certificates[x] == RootOf(idOf, t, s, seen)
    decreases |Unseen(idOf, t, s, seen)|
  {
    if s.certificate.parent.Link? && x != idOf(s.certificate) {
      var p := s.certificate.parent.id;
      UnseenShrinks(idOf, t, s, p, seen);
      OneRootOnTheWay(idOf, t, t.certificates[p], seen + {idOf(s.certificate)}, x);
    }
  }

  /** And uninstalling takes no more than that: every held certificate whose chain ends elsewhere still verifies. */
  lemma UninstallIsExact(idOf: Naming, t: Table, subject: Key, id: Id)
    requires Filed(idOf, t) && id in t.certificates && Verifies(idOf, t, t.certificates[id])
    ensures Verifies(idOf, WithRevoked(t, RootIds(t, subject)), t.certificates[id])
            <==> RootOf(idOf, t, t.certificates[id], {}).certificate.subject != subject
  {
    var s, gone := t.certificates[id], RootIds(t, subject);
    var r := RootOf(idOf, t, s, {});
    RevocationIsExact(idOf, t, gone, s, {});
    RootIsAncestor(idOf, t, s, {});
    AuthorityNeverGrows(idOf, t, s, {}, "", "", 0);
    OneRootOnTheWay(idOf, t, s, {}, idOf(r.certificate));
    if r.certificate.subject == subject {
      assert idOf(r.certificate) in gone;
    } else {
      forall x | x in AncestorIds(idOf, t, s, {}) ensures x !in gone { OneRootOnTheWay(idOf, t, s, {}, x); }
    }
  }
}

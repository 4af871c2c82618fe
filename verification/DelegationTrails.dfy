/**
 What the chain walk of crates/servitor/src/delegation.rs decides, said without the walk: the
 verdict on a certificate is told by the one list of certificates that leads from it, parent by
 parent, to a root certificate or to the first thing that is wrong.
 */
module DelegationTrails {
  import opened Wrappers
  import opened Segments
  import opened Capability
  import opened CapabilityPath
  import opened Delegation

  /** A certificate that may take part in a link at all. */
  ghost predicate Sound(c: Certificate) {
    && c.version == 1 && c.issuer != 0 && c.subject != 0
    && c.scope.domain != "" && c.scope.resource != [] && c.scope.pathPrefix != ""
    && c.scope.actions != {} && "" !in c.scope.actions
    && c.issuedAtMs <= c.notBeforeMs
    && (c.expiresAtMs.Some? ==> c.notBeforeMs <= c.expiresAtMs.value)
  }

  /** The child was issued by the parent's subject and is nowhere wider than the parent. */
  ghost predicate Narrower(child: Certificate, parent: Certificate) {
    && child.issuer == parent.subject
    && child.scope.domain == parent.scope.domain && child.scope.resource == parent.scope.resource
    && (child.scope.pathPrefix == parent.scope.pathPrefix || parent.scope.pathPrefix + "/" <= child.scope.pathPrefix)
    && (forall a :: a in child.scope.actions ==> a in parent.scope.actions)
    && parent.notBeforeMs <= child.notBeforeMs
    && (parent.expiresAtMs.Some? ==>
          child.expiresAtMs.Some? && child.expiresAtMs.value <= parent.expiresAtMs.value)
    && child.remainingDepth < parent.remainingDepth
  }

  /** A link is good exactly when both ends are sound and the child is narrower. */
  lemma LinkMeans(idOf: Naming, child: Certificate, parent: Certificate)
    ensures Attenuates(idOf, child, parent)
            <==> child.parent == Link(idOf(parent)) && Sound(child) && Sound(parent) && Narrower(child, parent)
  {
    PrefixMeans(parent.scope.pathPrefix, child.scope.pathPrefix);
  }

  /** Good so far at place `i`: not met before, not revoked, and signed as it claims. */
  ghost predicate InOrderAt(idOf: Naming, t: Table, seen: set<Id>, trail: seq<Signed>, i: nat)
    requires i < |trail|
  {
    FreshAt(idOf, seen, trail, i) && idOf(trail[i].certificate) !in t.revoked && trail[i].authentic
  }

  ghost predicate FreshAt(idOf: Naming, seen: set<Id>, trail: seq<Signed>, i: nat)
    requires i < |trail|
  {
    && idOf(trail[i].certificate) !in seen
    && forall k :: 0 <= k < i ==> idOf(trail[k].certificate) != idOf(trail[i].certificate)
  }

  /** The certificate at place `i` leads on to the next one, which is held, by a good link. */
  ghost predicate LeadsOn(idOf: Naming, t: Table, trail: seq<Signed>, i: nat)
    requires i + 1 < |trail|
  {
    var child, parent := trail[i].certificate, trail[i + 1].certificate;
    && child.parent == Link(idOf(parent))
    && idOf(parent) in t.certificates && t.certificates[idOf(parent)] == trail[i + 1]
    && Sound(child) && Sound(parent) && Narrower(child, parent)
  }

  /** Why the trail ends where it does. */
  ghost predicate EndsWith(idOf: Naming, t: Table, seen: set<Id>, trail: seq<Signed>, verdict: Result<(), ChainError>)
    requires trail != []
  {
    var n := |trail| - 1;
    var c := trail[n].certificate;
    var id := idOf(c);
    match verdict
    case Ok(_) => InOrderAt(idOf, t, seen, trail, n) && c.parent == Root(t.root)
    case Err(Cycle(x)) => x == id && !FreshAt(idOf, seen, trail, n)
    case Err(Revoked(x)) => x == id && FreshAt(idOf, seen, trail, n) && id in t.revoked
    case Err(BadSignature(x)) =>
      x == id && FreshAt(idOf, seen, trail, n) && id !in t.revoked && !trail[n].authentic
    case Err(WrongRoot(x)) =>
      x == id && InOrderAt(idOf, t, seen, trail, n) && c.parent.Root? && c.parent.authority != t.root
    case Err(MissingParent(p)) => InOrderAt(idOf, t, seen, trail, n) && c.parent == Link(p) && p !in t.certificates
    case Err(NotAttenuating(x)) =>
      && x == id && InOrderAt(idOf, t, seen, trail, n) && c.parent.Link? && c.parent.id in t.certificates
      && var parent := t.certificates[c.parent.id].certificate;
         !(Sound(c) && Sound(parent) && Narrower(c, parent))
  }

  ghost predicate Trail(idOf: Naming, t: Table, s: Signed, seen: set<Id>, trail: seq<Signed>,
                        verdict: Result<(), ChainError>)
  {
    && trail != [] && trail[0] == s
    && (forall i :: 0 <= i < |trail| - 1 ==> InOrderAt(idOf, t, seen, trail, i))
    && (forall i :: 0 <= i < |trail| - 1 ==> LeadsOn(idOf, t, trail, i))
    && EndsWith(idOf, t, seen, trail, verdict)
  }

  // ---------- One certificate more in front ----------

  lemma FreshShifts(idOf: Naming, seen: set<Id>, s: Signed, rest: seq<Signed>, i: nat)
    requires i < |rest|
    ensures FreshAt(idOf, seen, [s] + rest, i + 1) <==> FreshAt(idOf, seen + {idOf(s.certificate)}, rest, i)
  {
    var trail := [s] + rest;
    assert trail[0] == s && trail[i + 1] == rest[i];
    assert forall k :: 0 <= k < i ==> trail[k + 1] == rest[k];
    if FreshAt(idOf, seen, trail, i + 1) {
      assert idOf(trail[0].certificate) != idOf(trail[i + 1].certificate);
      forall k | 0 <= k < i ensures idOf(rest[k].certificate) != idOf(rest[i].certificate) {
        assert idOf(trail[k + 1].certificate) != idOf(trail[i + 1].certificate);
      }
    }
    if FreshAt(idOf, seen + {idOf(s.certificate)}, rest, i) {
      forall k | 0 <= k < i + 1 ensures idOf(trail[k].certificate) != idOf(trail[i + 1].certificate) {
        if k > 0 { assert trail[k] == rest[k - 1]; }
      }
    }
  }

  lemma TrailShifts(idOf: Naming, t: Table, s: Signed, seen: set<Id>, rest: seq<Signed>,
                    verdict: Result<(), ChainError>)
    requires rest != []
    ensures Trail(idOf, t, s, seen, [s] + rest, verdict)
            <==> InOrderAt(idOf, t, seen, [s], 0) && LeadsOn(idOf, t, [s] + rest, 0)
                 && Trail(idOf, t, rest[0], seen + {idOf(s.certificate)}, rest, verdict)
  {
    var trail, after := [s] + rest, seen + {idOf(s.certificate)};
    forall i | 0 <= i < |rest|
      ensures trail[i + 1] == rest[i] && (FreshAt(idOf, seen, trail, i + 1) <==> FreshAt(idOf, after, rest, i))
    {
      FreshShifts(idOf, seen, s, rest, i);
    }
    assert InOrderAt(idOf, t, seen, trail, 0) <==> InOrderAt(idOf, t, seen, [s], 0);
    assert EndsWith(idOf, t, seen, trail, verdict) <==> EndsWith(idOf, t, after, rest, verdict) by {
      assert trail[|trail| - 1] == rest[|rest| - 1];
    }
    forall i | 0 <= i < |rest| - 1
      ensures InOrderAt(idOf, t, seen, trail, i + 1) <==> InOrderAt(idOf, t, after, rest, i)
      ensures LeadsOn(idOf, t, trail, i + 1) <==> LeadsOn(idOf, t, rest, i)
    {
    }
    if Trail(idOf, t, s, seen, trail, verdict) {
      assert InOrderAt(idOf, t, seen, trail, 0) && LeadsOn(idOf, t, trail, 0);
    }
    if InOrderAt(idOf, t, seen, [s], 0) && LeadsOn(idOf, t, trail, 0) && Trail(idOf, t, rest[0], after, rest, verdict) {
      forall i | 0 <= i < |trail| - 1 ensures InOrderAt(idOf, t, seen, trail, i) && LeadsOn(idOf, t, trail, i) {
        if i > 0 { assert InOrderAt(idOf, t, after, rest, i - 1) && LeadsOn(idOf, t, rest, i - 1); }
      }
    }
  }

  // ---------- The verdict ----------

  /** The walk leaves a trail to its verdict. */
  lemma {:induction false} TrailOf(idOf: Naming, t: Table, s: Signed, seen: set<Id>) returns (trail: seq<Signed>)
    requires Filed(idOf, t)
    ensures Trail(idOf, t, s, seen, trail, VerifyFrom(idOf, t, s, seen))
    decreases |Unseen(idOf, t, s, seen)|
  {
    var c, id := s.certificate, idOf(s.certificate);
    trail := [s];
    if c.parent.Link? && c.parent.id in t.certificates {
      var next := t.certificates[c.parent.id];
      LinkMeans(idOf, c, next.certificate);
      if id !in seen && id !in t.revoked && s.authentic && Attenuates(idOf, c, next.certificate) {
        UnseenShrinks(idOf, t, s, c.parent.id, seen);
        VerifyGoesOn(idOf, t, s, seen, c.parent.id);
        var rest := TrailOf(idOf, t, next, seen + {id});
        trail := [s] + rest;
        TrailShifts(idOf, t, s, seen, rest, VerifyFrom(idOf, t, s, seen));
      }
    }
  }

  /** And a trail leaves the walk no other verdict. */
  lemma {:induction false} TrailDecides(idOf: Naming, t: Table, s: Signed, seen: set<Id>, trail: seq<Signed>,
                                        verdict: Result<(), ChainError>)
    requires Filed(idOf, t) && Trail(idOf, t, s, seen, trail, verdict)
    ensures VerifyFrom(idOf, t, s, seen) == verdict
    decreases |trail|
  {
    var c := s.certificate;
    if |trail| == 1 {
      assert verdict.Ok? ==> verdict.value == ();
      if c.parent.Link? && c.parent.id in t.certificates {
        LinkMeans(idOf, c, t.certificates[c.parent.id].certificate);
      }
    } else {
      var rest := trail[1..];
      assert trail == [s] + rest;
      TrailShifts(idOf, t, s, seen, rest, verdict);
      assert LeadsOn(idOf, t, trail, 0) && InOrderAt(idOf, t, seen, [s], 0);
      LinkMeans(idOf, c, rest[0].certificate);
      VerifyGoesOn(idOf, t, s, seen, c.parent.id);
      TrailDecides(idOf, t, rest[0], seen + {idOf(c)}, rest, verdict);
    }
  }

  /** The verdict on any certificate, error included, is exactly the one its trail ends with. */
  lemma VerdictIffTrail(idOf: Naming, t: Table, s: Signed, verdict: Result<(), ChainError>)
    requires Filed(idOf, t)
    ensures VerifyFrom(idOf, t, s, {}) == verdict <==> exists trail :: Trail(idOf, t, s, {}, trail, verdict)
  {
    if VerifyFrom(idOf, t, s, {}) == verdict {
      var trail := TrailOf(idOf, t, s, {});
    }
    if trail :| Trail(idOf, t, s, {}, trail, verdict) {
      TrailDecides(idOf, t, s, {}, trail, verdict);
    }
  }

  // ---------- Held certificates ----------

  /** Every certificate from here to the root is authentic and unrevoked, and each link is held and good. */
  ghost predicate Chain(idOf: Naming, t: Table, s: Signed, chain: seq<Signed>) {
    && chain != [] && chain[0] == s
    && (forall i :: 0 <= i < |chain| ==> chain[i].authentic && idOf(chain[i].certificate) !in t.revoked)
    && (forall i :: 0 <= i < |chain| - 1 ==> LeadsOn(idOf, t, chain, i))
    && chain[|chain| - 1].certificate.parent == Root(t.root)
  }

  lemma {:induction false} DepthGrows(idOf: Naming, t: Table, chain: seq<Signed>, i: nat, k: nat)
    requires i < k < |chain| && forall j :: 0 <= j < |chain| - 1 ==> LeadsOn(idOf, t, chain, j)
    ensures chain[i].certificate.remainingDepth < chain[k].certificate.remainingDepth
  {
    assert LeadsOn(idOf, t, chain, k - 1);
    if i < k - 1 { DepthGrows(idOf, t, chain, i, k - 1); }
  }

  lemma HeldAlong(idOf: Naming, t: Table, s: Signed, chain: seq<Signed>, i: nat)
    requires Chain(idOf, t, s, chain) && i < |chain|
    requires idOf(s.certificate) in t.certificates && t.certificates[idOf(s.certificate)] == s
    ensures idOf(chain[i].certificate) in t.certificates && t.certificates[idOf(chain[i].certificate)] == chain[i]
  {
    if i > 0 { assert LeadsOn(idOf, t, chain, i - 1); }
  }

  /** A held certificate verifies exactly when such a chain leads from it to the root. */
  lemma VerifiesIffChain(idOf: Naming, t: Table, s: Signed)
    requires Filed(idOf, t) && idOf(s.certificate) in t.certificates && t.certificates[idOf(s.certificate)] == s
    ensures Verifies(idOf, t, s) <==> exists chain :: Chain(idOf, t, s, chain)
  {
    VerdictIffTrail(idOf, t, s, Ok(()));
    if Verifies(idOf, t, s) {
      assert VerifyFrom(idOf, t, s, {}).value == ();
      var trail: seq<Signed> :| Trail(idOf, t, s, {}, trail, Ok(()));
      forall i | 0 <= i < |trail| ensures trail[i].authentic && idOf(trail[i].certificate) !in t.revoked {
        assert InOrderAt(idOf, t, {}, trail, i);
      }
      assert Chain(idOf, t, s, trail);
    }
    if chain: seq<Signed> :| Chain(idOf, t, s, chain) {
      forall i | 0 <= i < |chain| ensures InOrderAt(idOf, t, {}, chain, i) {
        forall k | 0 <= k < i ensures idOf(chain[k].certificate) != idOf(chain[i].certificate) {
          HeldAlong(idOf, t, s, chain, k);
          HeldAlong(idOf, t, s, chain, i);
          DepthGrows(idOf, t, chain, k, i);
        }
      }
      assert Trail(idOf, t, s, {}, chain, Ok(()));
    }
  }

  /** A certificate speaks for an action on a path at an instant, the instant of its expiry included. */
  ghost predicate SpeaksFor(c: Certificate, path: string, action: string, atMs: nat) {
    && Sound(c)
    && c.notBeforeMs <= atMs && (c.expiresAtMs.Some? ==> atMs <= c.expiresAtMs.value)
    && (path == c.scope.pathPrefix || c.scope.pathPrefix + "/" <= path)
    && action in c.scope.actions
  }

  /** The table says yes exactly when a held certificate of the subject speaks for the need and has a chain. */
  lemma TableCoversIffChain(idOf: Naming, t: Table, subject: Key, needed: Cap, mode: Mode)
    requires Filed(idOf, t)
    ensures TableCovers(idOf, t, subject, needed, mode)
            <==> exists id :: id in t.certificates && HeldAnswer(idOf, t, id, subject, needed, mode)
  {
    forall id | id in t.certificates
      ensures Grants(idOf, t, id, subject, needed, mode) <==> HeldAnswer(idOf, t, id, subject, needed, mode)
    {
      VerifiesIffChain(idOf, t, t.certificates[id]);
      PrefixMeans(t.certificates[id].certificate.scope.pathPrefix, CapPath(needed));
    }
  }

  ghost predicate HeldAnswer(idOf: Naming, t: Table, id: Id, subject: Key, needed: Cap, mode: Mode)
    requires id in t.certificates
  {
    var s := t.certificates[id];
    && s.certificate.subject == subject
    && SpeaksFor(s.certificate, CapPath(needed), ModeAction(mode), t.nowMs)
    && exists chain :: Chain(idOf, t, s, chain)
  }

  lemma PrefixMeans(prefix: string, path: string)
    ensures PathCovers(prefix, path) <==> path == prefix || prefix + "/" <= path
  {
    if prefix + "/" <= path {
      assert path[..|prefix| + 1] == prefix + "/" && path[..|prefix|] == path[..|prefix| + 1][..|prefix|];
    }
    if |prefix| < |path| && path[..|prefix|] == prefix && path[|prefix|] == '/' {
      assert path[..|prefix| + 1] == path[..|prefix|] + [path[|prefix|]];
    }
  }
}

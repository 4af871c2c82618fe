/**
 The gate of crates/servitor/src/gate.rs: the four checks every petition passes, the behavior
 petition that adds the deadband, and what an accepted petition is known to have touched. The
 graph log is what the gate sees of it: a revision-checked, all-or-nothing batch commit.
 */
module Gate {
  import opened Wrappers
  import opened Capability
  import opened Authority
  import D = Deadband

  type Subject = nat
  type Covers = (Subject, Cap, Mode) -> bool

  datatype Spec =
    | InsertNode(id: string)
    | RemoveNode(id: string)
    | Connect(from: string, to: string)
    | Disconnect(edge: nat)
    | Derive(node: string)
    | SetFacet(node: string, facet: string)
    | RemoveFacet(node: string, facet: string)

  datatype GateError =
    | DeadbandRefused(refusal: D.Refusal)
    | Unauthorized(path: seq<string>)
    | OutOfScope(node: string, path: seq<string>)
    | UnauthorizedFacet(facet: string)
    | TouchesProjection(node: string)
    | CommitRefused

  const GRANT_PREFIX := "grant:"

  function Touched(spec: Spec): seq<string> {
    match spec
    case InsertNode(id) => [id]
    case RemoveNode(id) => [id]
    case Connect(from, to) => [from, to]
    case Disconnect(_) => []
    case Derive(node) => [node]
    case SetFacet(node, _) => [node]
    case RemoveFacet(node, _) => [node]
  }

  function TouchedFacets(spec: Spec): seq<string> {
    match spec
    case SetFacet(_, facet) => [facet]
    case RemoveFacet(_, facet) => [facet]
    case _ => []
  }

  predicate Projected(node: string) {
    GRANT_PREFIX <= node
  }

  /** The node id reads as a scope under the claimed one; an id that is no scope fails closed. */
  predicate Inside(claimed: seq<string>, node: string) {
    var parsed := ParseScope(node);
    parsed.Ok? && Capability.Covers(Scope(claimed), parsed.value)
  }

  predicate FacetHeld(covers: Covers, subject: Subject, facet: string) {
    var parsed := ParseFacet(facet);
    parsed.Ok? && covers(subject, parsed.value, Write)
  }

  // ---------- What the checks decide ----------

  function NodesOf(specs: seq<Spec>): seq<string> {
    if specs == [] then [] else Touched(specs[0]) + NodesOf(specs[1..])
  }

  function FacetsOf(specs: seq<Spec>): seq<string> {
    if specs == [] then [] else TouchedFacets(specs[0]) + FacetsOf(specs[1..])
  }

  /** The first text a test rejects. */
  function FirstBad(texts: seq<string>, good: string -> bool): (r: Option<string>)
    ensures r.None? <==> forall i :: 0 <= i < |texts| ==> good(texts[i])
    ensures r.Some? ==> r.value in texts && !good(r.value)
  {
    if texts == [] then None
    else if !good(texts[0]) then Some(texts[0])
    else FirstBad(texts[1..], good)
  }

  const UNPROJECTED: string -> bool := n => !Projected(n)

  function InsideOf(claimed: seq<string>): string -> bool {
    n => Inside(claimed, n)
  }

  function HeldBy(covers: Covers, subject: Subject): string -> bool {
    f => FacetHeld(covers, subject, f)
  }

  /** The verdict: projection guard, then authority, then scope, then facets. */
  function Verdict(covers: Covers, subject: Subject, claimed: seq<string>, specs: seq<Spec>): Option<GateError> {
    var projected := FirstBad(NodesOf(specs), UNPROJECTED);
    if projected.Some? then Some(TouchesProjection(projected.value))
    else if !covers(subject, Scope(claimed), Write) then Some(Unauthorized(claimed))
    else
      var outside := FirstBad(NodesOf(specs), InsideOf(claimed));
      if outside.Some? then Some(OutOfScope(outside.value, claimed))
      else
        var facet := FirstBad(FacetsOf(specs), HeldBy(covers, subject));
        if facet.Some? then Some(UnauthorizedFacet(facet.value)) else None
  }

  /** Every node some edit of the batch touches passes a test. */
  ghost predicate AllNodes(specs: seq<Spec>, good: string -> bool) {
    forall s, n :: s in specs && n in Touched(s) ==> good(n)
  }

  ghost predicate AllFacets(specs: seq<Spec>, good: string -> bool) {
    forall s, f :: s in specs && f in TouchedFacets(s) ==> good(f)
  }

  /** Everything a petition must satisfy. */
  ghost predicate Permitted(covers: Covers, subject: Subject, claimed: seq<string>, specs: seq<Spec>) {
    && covers(subject, Scope(claimed), Write)
    && AllNodes(specs, UNPROJECTED) && AllNodes(specs, InsideOf(claimed))
    && AllFacets(specs, HeldBy(covers, subject))
  }

  lemma {:induction false} NodesOfMembers(specs: seq<Spec>, n: string)
    ensures n in NodesOf(specs) <==> exists s :: s in specs && n in Touched(s)
  {
    if specs != [] {
      NodesOfMembers(specs[1..], n);
      assert forall s :: s in specs <==> s == specs[0] || s in specs[1..];
    }
  }

  lemma {:induction false} FacetsOfMembers(specs: seq<Spec>, f: string)
    ensures f in FacetsOf(specs) <==> exists s :: s in specs && f in TouchedFacets(s)
  {
    if specs != [] {
      FacetsOfMembers(specs[1..], f);
      assert forall s :: s in specs <==> s == specs[0] || s in specs[1..];
    }
  }

  lemma AllIndices(texts: seq<string>, good: string -> bool)
    ensures FirstBad(texts, good).None? <==> forall x :: x in texts ==> good(x)
  {
  }

  lemma NodesPass(specs: seq<Spec>, good: string -> bool)
    ensures FirstBad(NodesOf(specs), good).None? <==> AllNodes(specs, good)
  {
    AllIndices(NodesOf(specs), good);
    forall n ensures n in NodesOf(specs) <==> exists s :: s in specs && n in Touched(s) { NodesOfMembers(specs, n); }
  }

  lemma FacetsPass(specs: seq<Spec>, good: string -> bool)
    ensures FirstBad(FacetsOf(specs), good).None? <==> AllFacets(specs, good)
  {
    AllIndices(FacetsOf(specs), good);
    forall f ensures f in FacetsOf(specs) <==> exists s :: s in specs && f in TouchedFacets(s) {
      FacetsOfMembers(specs, f);
    }
  }

  /** No error exactly when every requirement holds. */
  lemma VerdictIsPermission(covers: Covers, subject: Subject, claimed: seq<string>, specs: seq<Spec>)
    ensures Verdict(covers, subject, claimed, specs).None? <==> Permitted(covers, subject, claimed, specs)
  {
    NodesPass(specs, UNPROJECTED);
    NodesPass(specs, InsideOf(claimed));
    FacetsPass(specs, HeldBy(covers, subject));
  }

  /**
   Which error a petition gets, exactly: a touched projection outranks missing authority, which
   outranks a node outside the claim, which outranks a facet not held; and the node or facet named
   is a touched one that fails.
   */
  lemma VerdictPrecedence(covers: Covers, subject: Subject, claimed: seq<string>, specs: seq<Spec>)
    ensures var v := Verdict(covers, subject, claimed, specs);
            var unprojected, inside := AllNodes(specs, UNPROJECTED), AllNodes(specs, InsideOf(claimed));
            var held, authority := AllFacets(specs, HeldBy(covers, subject)), covers(subject, Scope(claimed), Write);
            && (v.Some? && v.value.TouchesProjection? <==> !unprojected)
            && (v.Some? && v.value.Unauthorized? <==> unprojected && !authority)
            && (v.Some? && v.value.OutOfScope? <==> unprojected && authority && !inside)
            && (v.Some? && v.value.UnauthorizedFacet? <==> unprojected && authority && inside && !held)
    ensures var v := Verdict(covers, subject, claimed, specs);
            && (v.Some? && v.value.TouchesProjection? ==> v.value.node in NodesOf(specs) && Projected(v.value.node))
            && (v.Some? && v.value.OutOfScope? ==> v.value.node in NodesOf(specs) && !Inside(claimed, v.value.node))
            && (v.Some? && v.value.UnauthorizedFacet? ==>
                v.value.facet in FacetsOf(specs) && !FacetHeld(covers, subject, v.value.facet))
  {
    NodesPass(specs, UNPROJECTED);
    NodesPass(specs, InsideOf(claimed));
    FacetsPass(specs, HeldBy(covers, subject));
  }

  lemma {:induction false} FirstBadAppend(a: seq<string>, b: seq<string>, good: string -> bool)
    ensures FirstBad(a + b, good) == if FirstBad(a, good).Some? then FirstBad(a, good) else FirstBad(b, good)
  {
    if a == [] {
      assert a + b == b;
    } else {
      assert (a + b)[0] == a[0] && (a + b)[1..] == a[1..] + b;
      FirstBadAppend(a[1..], b, good);
    }
  }

  /** The texts of one edit, stopping at the first a test rejects. */
  method ScanTexts(texts: seq<string>, good: string -> bool) returns (bad: Option<string>)
    ensures bad == FirstBad(texts, good)
  {
    for i := 0 to |texts|
      invariant FirstBad(texts, good) == FirstBad(texts[i..], good)
    {
      assert texts[i..][0] == texts[i] && texts[i..][1..] == texts[i + 1..];
      if !good(texts[i]) {
        return Some(texts[i]);
      }
    }
    bad := None;
  }

  method ScanNodes(specs: seq<Spec>, good: string -> bool) returns (bad: Option<string>)
    ensures bad == FirstBad(NodesOf(specs), good)
  {
    for i := 0 to |specs|
      invariant FirstBad(NodesOf(specs), good) == FirstBad(NodesOf(specs[i..]), good)
    {
      assert specs[i..][0] == specs[i] && specs[i..][1..] == specs[i + 1..];
      FirstBadAppend(Touched(specs[i]), NodesOf(specs[i + 1..]), good);
      bad := ScanTexts(Touched(specs[i]), good);
      if bad.Some? {
        return;
      }
    }
    bad := None;
  }

  method ScanFacets(specs: seq<Spec>, good: string -> bool) returns (bad: Option<string>)
    ensures bad == FirstBad(FacetsOf(specs), good)
  {
    for i := 0 to |specs|
      invariant FirstBad(FacetsOf(specs), good) == FirstBad(FacetsOf(specs[i..]), good)
    {
      assert specs[i..][0] == specs[i] && specs[i..][1..] == specs[i + 1..];
      FirstBadAppend(TouchedFacets(specs[i]), FacetsOf(specs[i + 1..]), good);
      bad := ScanTexts(TouchedFacets(specs[i]), good);
      if bad.Some? {
        return;
      }
    }
    bad := None;
  }

  method ValidatePetition(covers: Covers, subject: Subject, claimed: seq<string>, specs: seq<Spec>)
    returns (r: Option<GateError>)
    ensures r == Verdict(covers, subject, claimed, specs)
  {
    var projected := ScanNodes(specs, UNPROJECTED);
    if projected.Some? {
      return Some(TouchesProjection(projected.value));
    }
    if !covers(subject, Scope(claimed), Write) {
      return Some(Unauthorized(claimed));
    }
    var outside := ScanNodes(specs, InsideOf(claimed));
    if outside.Some? {
      return Some(OutOfScope(outside.value, claimed));
    }
    var facet := ScanFacets(specs, HeldBy(covers, subject));
    r := if facet.Some? then Some(UnauthorizedFacet(facet.value)) else None;
  }

  // ---------- Committing ----------

  datatype Batch = Batch(author: Subject, specs: seq<Spec>)

  class GraphLog {
    var batches: seq<Batch>

    /** The revision is the number of batches committed. */
    function Revision(): nat
      reads this
    {
      |batches|
    }

    /** All or nothing: lands when the revision is the expected one and the graph accepts the batch. */
    method CommitBatch(author: Subject, expected: nat, specs: seq<Spec>, accepts: bool) returns (landed: bool)
      modifies this
      ensures landed <==> expected == old(Revision()) && accepts
      ensures batches == if landed then old(batches) + [Batch(author, specs)] else old(batches)
    {
      landed := expected == Revision() && accepts;
      if landed { batches := batches + [Batch(author, specs)]; }
    }
  }

  method Petition(covers: Covers, nested: GraphLog, subject: Subject, claimed: seq<string>, expected: nat,
                  specs: seq<Spec>, accepts: bool)
    returns (r: Result<(), GateError>)
    modifies nested
    ensures r.Ok? <==> Permitted(covers, subject, claimed, specs) && expected == old(nested.Revision()) && accepts
    ensures nested.batches == if r.Ok? then old(nested.batches) + [Batch(subject, specs)] else old(nested.batches)
  {
    VerdictIsPermission(covers, subject, claimed, specs);
    var refused := ValidatePetition(covers, subject, claimed, specs);
    if refused.Some? {
      return Err(refused.value);
    }
    var landed := nested.CommitBatch(subject, expected, specs, accepts);
    r := if landed then Ok(()) else Err(CommitRefused);
  }

  /**
   A behavior petition: the ordinary checks, then the deadband, then the commit, and the baseline
   moves only once the commit has landed. A refusal of any kind changes neither log nor table.
   */
  method PetitionBehavior(covers: Covers, deadbands: D.DeadbandTable, nested: GraphLog, subject: Subject,
                          claimed: seq<string>, expected: nat, actuation: D.Actuation, specs: seq<Spec>, accepts: bool)
    returns (r: Result<(), GateError>)
    requires deadbands.Valid()
    modifies deadbands, nested
    ensures deadbands.Valid()
    ensures var call := D.Act(subject, actuation, Permitted(covers, subject, claimed, specs),
                              expected == old(nested.Revision()) && accepts);
            && (r.Ok? <==> D.Accepts(old(deadbands.entries), call))
            && deadbands.entries == D.After(old(deadbands.entries), call)
    ensures nested.batches == if r.Ok? then old(nested.batches) + [Batch(subject, specs)] else old(nested.batches)
  {
    VerdictIsPermission(covers, subject, claimed, specs);
    var refused := ValidatePetition(covers, subject, claimed, specs);
    if refused.Some? {
      return Err(refused.value);
    }
    var admission := deadbands.Check(subject, actuation);
    if admission.Err? {
      return Err(DeadbandRefused(admission.error));
    }
    var landed := nested.CommitBatch(subject, expected, specs, accepts);
    if !landed {
      return Err(CommitRefused);
    }
    deadbands.Record(admission.value);
    r := Ok(());
  }

  // ---------- What an accepted petition touched ----------

  /** The grant table as the provider the gate asks. */
  function TableCovers(grants: seq<Grant>, nowMs: nat): Covers {
    (s: Subject, cap: Cap, mode: Mode) => GrantsCover(grants, nowMs, s, cap, mode)
  }

  /** The node and facet names a spec writes, told by its kind; a disconnect names an edge only. */
  ghost predicate WritesNode(spec: Spec, n: string) {
    match spec
    case InsertNode(id) => n == id
    case RemoveNode(id) => n == id
    case Connect(from, to) => n == from || n == to
    case Disconnect(_) => false
    case Derive(node) => n == node
    case SetFacet(node, _) => n == node
    case RemoveFacet(node, _) => n == node
  }

  ghost predicate WritesFacet(spec: Spec, f: string) {
    match spec
    case SetFacet(_, facet) => f == facet
    case RemoveFacet(_, facet) => f == facet
    case _ => false
  }

  /** A node lies in the claim: its text is a scope, and the claimed segments lead it. */
  ghost predicate LiesIn(claimed: seq<string>, n: string) {
    ParseScope(n).Ok? && ParseScope(n).value.Scope? && claimed <= ParseScope(n).value.segments
  }

  /**
   A petition passes exactly when its subject may write the claim, every node it names lies in the
   claim and is no grant projection, and its subject may write every facet it names.
   */
  lemma PassesIff(covers: Covers, subject: Subject, claimed: seq<string>, specs: seq<Spec>)
    ensures Verdict(covers, subject, claimed, specs).None?
            <==> && covers(subject, Scope(claimed), Write)
                 && (forall spec, n :: spec in specs && WritesNode(spec, n) ==>
                       !("grant:" <= n) && LiesIn(claimed, n))
                 && (forall spec, f :: spec in specs && WritesFacet(spec, f) ==>
                       ParseFacet(f).Ok? && covers(subject, ParseFacet(f).value, Write))
  {
    VerdictIsPermission(covers, subject, claimed, specs);
    forall spec, n ensures n in Touched(spec) <==> WritesNode(spec, n) {}
    forall spec, f ensures f in TouchedFacets(spec) <==> WritesFacet(spec, f) {}
    if Permitted(covers, subject, claimed, specs) {
      forall spec, n | spec in specs && WritesNode(spec, n) ensures !("grant:" <= n) && LiesIn(claimed, n) {
        assert n in Touched(spec) && UNPROJECTED(n) && InsideOf(claimed)(n);
      }
      forall spec, f | spec in specs && WritesFacet(spec, f)
        ensures ParseFacet(f).Ok? && covers(subject, ParseFacet(f).value, Write)
      {
        assert f in TouchedFacets(spec) && HeldBy(covers, subject)(f);
      }
    }
  }

  /**
   Under the grant table, a permitted petition touches only nodes and facets that some unexpired
   grant of the subject covers at write mode, and never a grant projection: a denizen cannot
   write outside its grants, and cannot write its grants.
   */
  lemma PermittedStaysInGrants(grants: seq<Grant>, nowMs: nat, subject: Subject, claimed: seq<string>, specs: seq<Spec>,
                               spec: Spec)
    requires Permitted(TableCovers(grants, nowMs), subject, claimed, specs)
    requires spec in specs
    ensures forall n :: n in Touched(spec) ==>
              !Projected(n) && ParseScope(n).Ok? && GrantsCover(grants, nowMs, subject, ParseScope(n).value, Write)
    ensures forall f :: f in TouchedFacets(spec) ==>
              ParseFacet(f).Ok? && GrantsCover(grants, nowMs, subject, ParseFacet(f).value, Write)
  {
    var covers := TableCovers(grants, nowMs);
    assert covers(subject, Scope(claimed), Write);
    var i :| 0 <= i < |grants| && GrantCovers(grants[i], nowMs, subject, Scope(claimed), Write);
    forall n | n in Touched(spec)
      ensures !Projected(n) && ParseScope(n).Ok? && GrantsCover(grants, nowMs, subject, ParseScope(n).value, Write)
    {
      assert UNPROJECTED(n) && InsideOf(claimed)(n);
      CoverageIsPartialOrder(grants[i].cap, Scope(claimed), ParseScope(n).value);
      assert GrantCovers(grants[i], nowMs, subject, ParseScope(n).value, Write);
    }
    forall f | f in TouchedFacets(spec)
      ensures ParseFacet(f).Ok? && GrantsCover(grants, nowMs, subject, ParseFacet(f).value, Write)
    {
      assert HeldBy(covers, subject)(f);
    }
  }
}

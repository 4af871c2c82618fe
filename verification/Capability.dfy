/**
 The capability algebra of crates/capability/src/lib.rs: powers, node scopes and facet
 namespaces, their coverage order, and their wire form.
 */
module Capability {
  import opened Wrappers
  import opened Segments

  datatype CapError = EmptySegment | RelativeSegment | EmptyPower | EmptyFacetSegment | UnknownKind(kind: string)

  /** A scope holds its slash-separated segments, a facet namespace its dot-separated ones. */
  datatype Cap =
    | Power(name: string)
    | Scope(segments: seq<string>)
    | Facet(namespace: seq<string>)

  datatype Mode = Read | Write | Delegate

  // ---------- The order ----------

  /** Holding `held` satisfies a need for `needed`. */
  predicate Covers(held: Cap, needed: Cap) {
    match (held, needed)
    case (Power(a), Power(b)) => a == b
    case (Scope(a), Scope(b)) => a <= b
    case (Facet(a), Facet(b)) => a <= b
    case _ => false
  }

  function Rank(m: Mode): nat {
    match m case Read => 0 case Write => 1 case Delegate => 2
  }

  predicate ModeCovers(held: Mode, needed: Mode) {
    Rank(held) >= Rank(needed)
  }

  /** Coverage is a partial order, which is what makes attenuation along a chain meaningful. */
  lemma CoverageIsPartialOrder(a: Cap, b: Cap, c: Cap)
    ensures Covers(a, a)
    ensures Covers(a, b) && Covers(b, c) ==> Covers(a, c)
    ensures Covers(a, b) && Covers(b, a) ==> a == b
  {
  }

  // ---------- Parsing ----------

  /** What disqualifies one scope segment, checked in this order. */
  function ScopeFault(segment: string): Option<CapError> {
    if segment == "" then Some(EmptySegment)
    else if segment == "." || segment == ".." then Some(RelativeSegment)
    else None
  }

  function FacetFault(segment: string): Option<CapError> {
    if segment == "" then Some(EmptyFacetSegment) else None
  }

  function FirstFault(parts: seq<string>, fault: string -> Option<CapError>): (r: Option<CapError>)
    ensures r.None? <==> forall i :: 0 <= i < |parts| ==> fault(parts[i]).None?
  {
    if parts == [] then None
    else if fault(parts[0]).Some? then fault(parts[0])
    else FirstFault(parts[1..], fault)
  }

  /** One trailing separator is ignored. */
  function Trimmed(raw: string, c: char): string {
    if raw != "" && raw[|raw| - 1] == c then raw[..|raw| - 1] else raw
  }

  function PartsOf(raw: string, c: char, fault: string -> Option<CapError>): Result<seq<string>, CapError> {
    var trimmed := Trimmed(raw, c);
    if trimmed == "" then Ok([])
    else
      var parts := Split(trimmed, c);
      var bad := FirstFault(parts, fault);
      if bad.Some? then Err(bad.value) else Ok(parts)
  }

  /** The segment loop shared by the scope and the facet parser. */
  method ParseParts(raw: string, c: char, fault: string -> Option<CapError>)
    returns (r: Result<seq<string>, CapError>)
    ensures r == PartsOf(raw, c, fault)
  {
    var trimmed := Trimmed(raw, c);
    if trimmed == "" {
      return Ok([]);
    }
    var parts := Split(trimmed, c);
    var segments := [];
    for i := 0 to |parts|
      invariant segments == parts[..i]
      invariant FirstFault(parts, fault) == FirstFault(parts[i..], fault)
    {
      assert parts[i..][1..] == parts[i + 1..];
      var bad := fault(parts[i]);
      if bad.Some? {
        return Err(bad.value);
      }
      segments := segments + [parts[i]];
    }
    assert parts[|parts|..] == [] && parts[..|parts|] == parts;
    r := Ok(segments);
  }

  function ParseScope(raw: string): Result<Cap, CapError> {
    var r := PartsOf(raw, '/', ScopeFault);
    if r.Ok? then Ok(Scope(r.value)) else Err(r.error)
  }

  function ParseFacet(raw: string): Result<Cap, CapError> {
    var r := PartsOf(raw, '.', FacetFault);
    if r.Ok? then Ok(Facet(r.value)) else Err(r.error)
  }

  function ParsePower(name: string): Result<Cap, CapError> {
    if name == "" then Err(EmptyPower) else Ok(Power(name))
  }

  /** The text before and after the first `c`. */
  function SplitOnce(s: string, c: char): (r: Option<(string, string)>)
    ensures r.Some? ==> s == r.value.0 + [c] + r.value.1 && c !in r.value.0
    ensures r.None? <==> c !in s
  {
    if s == "" then None
    else if s[0] == c then Some(("", s[1..]))
    else
      var rest := SplitOnce(s[1..], c);
      if rest.None? then None else Some(([s[0]] + rest.value.0, rest.value.1))
  }

  function Parse(raw: string): Result<Cap, CapError> {
    var tagged := SplitOnce(raw, ':');
    if tagged.Some? && tagged.value.0 == "power" then ParsePower(tagged.value.1)
    else if tagged.Some? && tagged.value.0 == "scope" then ParseScope(tagged.value.1)
    else if tagged.Some? && tagged.value.0 == "facet" then ParseFacet(tagged.value.1)
    else if tagged.Some? && '/' !in tagged.value.0 then Err(UnknownKind(tagged.value.0))
    else ParseScope(raw)
  }

  function ToWire(cap: Cap): string {
    match cap
    case Power(name) => "power:" + name
    case Scope(segments) => "scope:" + Join(segments, '/')
    case Facet(namespace) => "facet:" + Join(namespace, '.')
  }

  /** What the constructors let through. */
  predicate WellFormed(cap: Cap) {
    match cap
    case Power(name) => name != ""
    case Scope(segments) => forall i :: 0 <= i < |segments| ==> '/' !in segments[i] && ScopeFault(segments[i]).None?
    case Facet(namespace) => forall i :: 0 <= i < |namespace| ==> '.' !in namespace[i] && FacetFault(namespace[i]).None?
  }

  lemma SplitOnceAt(a: string, b: string, c: char)
    requires c !in a
    ensures SplitOnce(a + [c] + b, c) == Some((a, b))
  {
    if a == "" {
      assert (a + [c] + b)[1..] == b;
    } else {
      assert (a + [c] + b)[1..] == a[1..] + [c] + b;
      SplitOnceAt(a[1..], b, c);
      assert [a[0]] + a[1..] == a;
    }
  }

  /** A joined list of non-empty separator-free parts ends in no separator. */
  lemma {:induction false} JoinedIsTrimmed(parts: seq<string>, c: char)
    requires Free(parts, c) && forall i :: 0 <= i < |parts| ==> parts[i] != ""
    ensures Trimmed(Join(parts, c), c) == Join(parts, c)
    ensures parts != [] ==> Join(parts, c) != ""
  {
    if |parts| > 1 {
      JoinedIsTrimmed(parts[1..], c);
      JoinHead(parts, c);
      var rest := Join(parts[1..], c);
      assert (parts[0] + [c] + rest)[|Join(parts, c)| - 1] == rest[|rest| - 1];
    }
  }

  /** Parts survive being joined and parsed exactly when none has a fault or a separator in it. */
  lemma PartsRoundTrip(parts: seq<string>, c: char, fault: string -> Option<CapError>)
    requires fault("").Some?
    ensures PartsOf(Join(parts, c), c, fault) == Ok(parts)
            <==> forall i :: 0 <= i < |parts| ==> c !in parts[i] && fault(parts[i]).None?
  {
    if forall i :: 0 <= i < |parts| ==> c !in parts[i] && fault(parts[i]).None? {
      JoinedIsTrimmed(parts, c);
      if parts != [] { SplitJoin(parts, c); }
    }
  }

  /** The wire form round-trips exactly for the capabilities the constructors build. */
  lemma WireRoundTrip(cap: Cap)
    ensures Parse(ToWire(cap)) == Ok(cap) <==> WellFormed(cap)
  {
    match cap
    case Power(name) =>
      assert "power:" + name == "power" + [':'] + name;
      SplitOnceAt("power", name, ':');
    case Scope(segments) =>
      assert "scope:" + Join(segments, '/') == "scope" + [':'] + Join(segments, '/');
      SplitOnceAt("scope", Join(segments, '/'), ':');
      PartsRoundTrip(segments, '/', ScopeFault);
    case Facet(namespace) =>
      assert "facet:" + Join(namespace, '.') == "facet" + [':'] + Join(namespace, '.');
      SplitOnceAt("facet", Join(namespace, '.'), ':');
      PartsRoundTrip(namespace, '.', FacetFault);
  }

  /** Whatever the parser accepts is well formed, and is what its own wire form says. */
  lemma ParsedIsWellFormed(raw: string)
    ensures Parse(raw).Ok? ==> WellFormed(Parse(raw).value)
  {
  }

  /** The written forms, where only the letters matter. */
  lemma WireForms(name: string, a: string, b: string)
    ensures ToWire(Power(name)) == "power:" + name
    ensures ToWire(Scope([a, b])) == "scope:" + a + "/" + b && ToWire(Facet([a, b])) == "facet:" + a + "." + b
  {
    assert [a, b][1..] == [b];
    assert Join([a, b], '/') == a + "/" + b && Join([a, b], '.') == a + "." + b;
    assert "scope:" + (a + "/" + b) == "scope:" + a + "/" + b && "facet:" + (a + "." + b) == "facet:" + a + "." + b;
  }

  /** A text without a tag is a scope; an unknown tag is an error that names it, unless a slash comes before it. */
  lemma UntaggedIsScope(raw: string, tag: string, rest: string)
    ensures ':' !in raw ==> Parse(raw) == ParseScope(raw)
    ensures ':' !in tag && tag !in {"power", "scope", "facet"} ==>
              Parse(tag + ":" + rest)
              == if '/' in tag then ParseScope(tag + ":" + rest) else Err(UnknownKind(tag))
  {
    if ':' !in tag { SplitOnceAt(tag, rest, ':'); }
  }

  /** The text with at most one separator taken off its end. */
  ghost predicate Stripped(raw: string, text: string, c: char) {
    raw == text + [c] || (raw == text && (text == "" || text[|text| - 1] != c))
  }

  /** There is one such text for every raw one. */
  lemma StrippedIs(raw: string, text: string, c: char)
    ensures Stripped(raw, text, c) <==> text == Trimmed(raw, c)
  {
    if raw != "" && raw[|raw| - 1] == c {
      assert raw == raw[..|raw| - 1] + [c];
      if raw == text + [c] { assert text == raw[..|raw| - 1]; }
    }
  }

  /** A text is taken apart at its separators exactly when it is empty or no part of it is at fault. */
  lemma PartsTexts(raw: string, text: string, c: char, fault: string -> Option<CapError>)
    requires Stripped(raw, text, c)
    ensures var parts := Split(text, c);
            && (PartsOf(raw, c, fault).Ok? <==> text == "" || forall p :: p in parts ==> fault(p).None?)
            && (PartsOf(raw, c, fault).Ok? ==> PartsOf(raw, c, fault).value == if text == "" then [] else parts)
  {
    StrippedIs(raw, text, c);
    var parts := Split(text, c);
    assert (forall p :: p in parts ==> fault(p).None?) <==> FirstFault(parts, fault).None?;
  }

  /** A scope text is accepted exactly when it is empty or no part of it is empty, a dot or two dots. */
  lemma ScopeTexts(raw: string, text: string)
    requires Stripped(raw, text, '/')
    ensures var parts := Split(text, '/');
            && (ParseScope(raw).Ok? <==>
                  text == "" || forall p :: p in parts ==> p != "" && p != "." && p != "..")
            && (ParseScope(raw).Ok? ==> ParseScope(raw).value == Scope(if text == "" then [] else parts))
  {
    PartsTexts(raw, text, '/', ScopeFault);
    forall p ensures ScopeFault(p).None? <==> p != "" && p != "." && p != ".." {
    }
  }

  /** And a facet text exactly when it is empty or no part of it is. */
  lemma FacetTexts(raw: string, text: string)
    requires Stripped(raw, text, '.')
    ensures var parts := Split(text, '.');
            && (ParseFacet(raw).Ok? <==> text == "" || "" !in parts)
            && (ParseFacet(raw).Ok? ==> ParseFacet(raw).value == Facet(if text == "" then [] else parts))
  {
    PartsTexts(raw, text, '.', FacetFault);
    forall p ensures FacetFault(p).None? <==> p != "" {
    }
  }
}

/**
 How crates/servitor/src/delegation.rs writes a typed capability into the slash-separated
 path and the action set of a delegation certificate, and that the writing keeps the order.
 */
module CapabilityPath {
  import opened Segments
  import opened Capability

  /** `str::replace` of one character by a text. */
  function Replace(s: string, from: char, to: string): string {
    if s == "" then "" else (if s[0] == from then to else [s[0]]) + Replace(s[1..], from, to)
  }

  /** Escape `%`, then `/`, so that a segment holds no slash of its own. */
  function Encode(segment: string): string {
    Replace(Replace(segment, '%', "%25"), '/', "%2F")
  }

  function EncodeAll(segments: seq<string>): seq<string> {
    seq(|segments|, i requires 0 <= i < |segments| => Encode(segments[i]))
  }

  function CapPath(cap: Cap): string {
    match cap
    case Power(name) => "power/" + Encode(name)
    case Scope(segments) =>
      var path := Join(segments, '/');
      if path == "" then "scope" else "scope/" + path
    case Facet(namespace) =>
      if namespace == [] then "facet" else "facet/" + Join(EncodeAll(namespace), '/')
  }

  // ---------- The escape ----------

  function EncodeChar(x: char): string {
    if x == '%' then "%25" else if x == '/' then "%2F" else [x]
  }

  lemma ReplaceAppend(a: string, b: string, from: char, to: string)
    ensures Replace(a + b, from, to) == Replace(a, from, to) + Replace(b, from, to)
  {
    if a == "" {
      assert a + b == b;
    } else {
      assert (a + b)[1..] == a[1..] + b;
      ReplaceAppend(a[1..], b, from, to);
    }
  }

  lemma EncodeHead(s: string)
    requires s != ""
    ensures Encode(s) == EncodeChar(s[0]) + Encode(s[1..])
  {
    var head := if s[0] == '%' then "%25" else [s[0]];
    ReplaceAppend(head, Replace(s[1..], '%', "%25"), '/', "%2F");
    assert Replace(head, '/', "%2F") == EncodeChar(s[0]) by {
      if s[0] == '%' {
        assert "%25"[1..] == "25" && "25"[1..] == "5" && "5"[1..] == "";
      } else {
        assert [s[0]][1..] == "";
      }
    }
  }

  lemma {:induction false} EncodeSlashFree(s: string)
    ensures '/' !in Encode(s)
  {
    if s != "" {
      EncodeHead(s);
      EncodeSlashFree(s[1..]);
    }
  }

  lemma {:induction false} EncodeInjective(a: string, b: string)
    requires Encode(a) == Encode(b)
    ensures a == b
  {
    if a == "" && b == "" {
    } else if a == "" {
      EncodeHead(b);
      assert false;
    } else if b == "" {
      EncodeHead(a);
      assert false;
    } else {
      EncodeHead(a);
      EncodeHead(b);
      SameHead(a[0], b[0], Encode(a[1..]), Encode(b[1..]));
      EncodeInjective(a[1..], b[1..]);
      assert a == [a[0]] + a[1..] && b == [b[0]] + b[1..];
    }
  }

  lemma SameHead(x: char, y: char, s: string, t: string)
    requires EncodeChar(x) + s == EncodeChar(y) + t
    ensures x == y && s == t
  {
    var u, v := EncodeChar(x) + s, EncodeChar(y) + t;
    assert u[0] == EncodeChar(x)[0] && v[0] == EncodeChar(y)[0];
    if u[0] == '%' {
      assert u[2] == EncodeChar(x)[2] && v[2] == EncodeChar(y)[2];
      assert u[3..] == s && v[3..] == t;
    } else {
      assert u[1..] == s && v[1..] == t;
    }
  }

  // ---------- The path as a list ----------

  /** The segments a path is made of. */
  function PathList(cap: Cap): seq<string> {
    match cap
    case Power(name) => ["power", Encode(name)]
    case Scope(segments) => ["scope"] + segments
    case Facet(namespace) => ["facet"] + EncodeAll(namespace)
  }

  /** A scope as the parser builds it: slash-free, non-empty segments. Other kinds are unrestricted. */
  predicate Pathable(cap: Cap) {
    cap.Scope? ==> forall i :: 0 <= i < |cap.segments| ==> '/' !in cap.segments[i] && cap.segments[i] != ""
  }

  lemma JoinAfter(kind: string, parts: seq<string>)
    ensures Join([kind] + parts, '/') == if parts == [] then kind else kind + "/" + Join(parts, '/')
  {
    assert ([kind] + parts)[1..] == parts;
  }

  lemma PathIsJoined(cap: Cap)
    requires Pathable(cap)
    ensures CapPath(cap) == Join(PathList(cap), '/')
    ensures Free(PathList(cap), '/')
  {
    match cap
    case Power(name) =>
      EncodeSlashFree(name);
      JoinAfter("power", [Encode(name)]);
      assert ["power"] + [Encode(name)] == PathList(cap);
      assert "power" + "/" == "power/";
    case Scope(segments) =>
      JoinAfter("scope", segments);
      JoinedIsTrimmed(segments, '/');
      assert "scope" + "/" == "scope/";
    case Facet(namespace) =>
      forall i | 0 <= i < |namespace| ensures '/' !in EncodeAll(namespace)[i] { EncodeSlashFree(namespace[i]); }
      JoinAfter("facet", EncodeAll(namespace));
      assert "facet" + "/" == "facet/";
  }

  lemma EncodeAllPrefix(a: seq<string>, b: seq<string>)
    ensures EncodeAll(a) <= EncodeAll(b) <==> a <= b
  {
    if EncodeAll(a) <= EncodeAll(b) {
      forall i | 0 <= i < |a| ensures a[i] == b[i] {
        assert EncodeAll(a)[i] == EncodeAll(b)[i];
        EncodeInjective(a[i], b[i]);
      }
    }
  }

  lemma ListPrefixIsCoverage(held: Cap, needed: Cap)
    ensures PathList(held) <= PathList(needed) <==> Covers(held, needed)
  {
    var a, b := PathList(held), PathList(needed);
    match (held, needed)
    case (Power(x), Power(y)) =>
      if a <= b {
        assert a[1] == b[1];
        EncodeInjective(x, y);
      }
    case (Scope(x), Scope(y)) => ConsPrefix("scope", x, y);
    case (Facet(x), Facet(y)) =>
      EncodeAllPrefix(x, y);
      ConsPrefix("facet", EncodeAll(x), EncodeAll(y));
    case _ => assert a[0] != b[0];
  }

  lemma ConsPrefix(h: string, a: seq<string>, b: seq<string>)
    ensures [h] + a <= [h] + b <==> a <= b
  {
    if [h] + a <= [h] + b {
      assert ([h] + a)[1..] == a && ([h] + b)[1..] == b;
      assert a == ([h] + b)[1..|a| + 1];
    }
  }

  /**
   The encoding is an order embedding: one path covers another at a slash boundary exactly when
   the typed capability covers, whatever characters the segments hold.
   */
  lemma PathIsOrderEmbedding(held: Cap, needed: Cap)
    requires Pathable(held) && Pathable(needed)
    ensures PathCovers(CapPath(held), CapPath(needed)) <==> Covers(held, needed)
  {
    PathIsJoined(held);
    PathIsJoined(needed);
    PathCoversIsListPrefix(PathList(held), PathList(needed));
    ListPrefixIsCoverage(held, needed);
  }

  /** In particular no two capabilities share a path. */
  lemma PathIsInjective(a: Cap, b: Cap)
    requires Pathable(a) && Pathable(b) && CapPath(a) == CapPath(b)
    ensures a == b
  {
    PathIsOrderEmbedding(a, b);
    PathIsOrderEmbedding(b, a);
    CoverageIsPartialOrder(a, b, a);
  }

  // ---------- Modes as actions ----------

  function ModeAction(mode: Mode): string {
    match mode case Read => "read" case Write => "write" case Delegate => "delegate"
  }

  /** Every action the mode implies. */
  function ModeActions(mode: Mode): set<string> {
    {"read"} + (if Rank(mode) >= Rank(Write) then {"write"} else {})
             + (if Rank(mode) >= Rank(Delegate) then {"delegate"} else {})
  }

  /** Membership and subset of actions are both the mode order. */
  lemma ActionsAreModeOrder(held: Mode, needed: Mode)
    ensures ModeAction(needed) in ModeActions(held) <==> ModeCovers(held, needed)
    ensures ModeActions(needed) <= ModeActions(held) <==> ModeCovers(held, needed)
  {
    assert "read"[0] == 'r' && "write"[0] == 'w' && "delegate"[0] == 'd';
    assert ModeAction(needed) in ModeActions(needed);
  }

  /** Encoding goes character by character; only the two reserved ones change. */
  lemma EncodeMeans(x: char, rest: string)
    ensures Encode("") == "" && Encode([x] + rest) == Encode([x]) + Encode(rest)
    ensures Encode([x]) == if x == '%' then "%25" else if x == '/' then "%2F" else [x]
  {
    assert ([x] + rest)[1..] == rest && [x][1..] == "";
    EncodeHead([x] + rest);
    EncodeHead([x]);
  }

  /** The forms of paths and actions, where only the letters matter. */
  lemma PathForms(name: string, segment: string)
    requires segment != ""
    ensures CapPath(Power(name)) == "power/" + Encode(name)
    ensures CapPath(Scope([])) == "scope" && CapPath(Scope([segment])) == "scope/" + segment
    ensures CapPath(Facet([])) == "facet" && CapPath(Facet([segment])) == "facet/" + Encode(segment)
    ensures ModeActions(Read) == {"read"} && ModeActions(Write) == {"read", "write"}
    ensures ModeActions(Delegate) == {"read", "write", "delegate"}
  {
    assert EncodeAll([segment]) == [Encode(segment)];
  }
}

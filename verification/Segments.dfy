/**
 Splitting and joining text at a separator character, as `str::split` and `[String]::join`
 do, and the slash-boundary prefix test of crates/dramatis/personae/src/delegation.rs.
 */
module Segments {

  function Split(s: string, c: char): (r: seq<string>)
    ensures |r| >= 1
    ensures forall i :: 0 <= i < |r| ==> c !in r[i]
  {
    if s == "" then [""]
    else
      var rest := Split(s[1..], c);
      if s[0] == c then [""] + rest else Grow(s[0], rest)
  }

  /** One more character at the front of the first part. */
  function Grow(x: char, parts: seq<string>): seq<string>
    requires parts != []
  {
    [[x] + parts[0]] + parts[1..]
  }

  function Join(parts: seq<string>, c: char): string {
    if parts == [] then ""
    else if |parts| == 1 then parts[0]
    else parts[0] + [c] + Join(parts[1..], c)
  }

  ghost predicate Free(parts: seq<string>, c: char) {
    forall i :: 0 <= i < |parts| ==> c !in parts[i]
  }

  lemma {:induction false} SplitWhole(s: string, c: char)
    requires c !in s
    ensures Split(s, c) == [s]
  {
    if s != "" {
      SplitWhole(s[1..], c);
      assert [s[0]] + s[1..] == s;
    }
  }

  lemma GrowBoth(x: char, a: seq<string>, b: seq<string>)
    requires a != []
    ensures Grow(x, a + b) == Grow(x, a) + b
  {
    assert (a + b)[1..] == a[1..] + b;
  }

  /** Splitting at a separator splits both sides. */
  lemma {:induction false} SplitAt(a: string, b: string, c: char)
    ensures Split(a + [c] + b, c) == Split(a, c) + Split(b, c)
  {
    var s := a + [c] + b;
    if a == "" {
      assert s[1..] == b;
    } else {
      assert s[1..] == a[1..] + [c] + b && s[0] == a[0];
      SplitAt(a[1..], b, c);
      if a[0] == c {
        assert [""] + (Split(a[1..], c) + Split(b, c)) == [""] + Split(a[1..], c) + Split(b, c);
      } else {
        GrowBoth(a[0], Split(a[1..], c), Split(b, c));
      }
    }
  }

  /** Joining what was split gives the text back. */
  lemma {:induction false} JoinSplit(s: string, c: char)
    ensures Join(Split(s, c), c) == s
  {
    if s != "" {
      var rest := Split(s[1..], c);
      JoinSplit(s[1..], c);
      assert s == [s[0]] + s[1..];
      if s[0] == c {
        assert ([""] + rest)[1..] == rest;
      } else if |rest| > 1 {
        assert Grow(s[0], rest)[1..] == rest[1..];
      }
    }
  }

  lemma {:induction false} JoinBoth(a: seq<string>, b: seq<string>, c: char)
    requires a != [] && b != []
    ensures Join(a + b, c) == Join(a, c) + [c] + Join(b, c)
  {
    if |a| == 1 {
      assert (a + b)[1..] == b;
    } else {
      assert (a + b)[1..] == a[1..] + b && (a + b)[0] == a[0];
      JoinBoth(a[1..], b, c);
    }
  }

  /** Splitting a joined list of separator-free parts gives the parts back. */
  lemma {:induction false} SplitJoin(parts: seq<string>, c: char)
    requires parts != [] && Free(parts, c)
    ensures Split(Join(parts, c), c) == parts
  {
    SplitWhole(parts[0], c);
    if |parts| > 1 {
      SplitJoin(parts[1..], c);
      SplitAt(parts[0], Join(parts[1..], c), c);
      assert [parts[0]] + parts[1..] == parts;
    }
  }

  lemma JoinHead(parts: seq<string>, c: char)
    requires |parts| >= 2
    ensures Join(parts, c) == parts[0] + [c] + Join(parts[1..], c)
  {
  }

  /** The path is the prefix, or continues it at a slash. */
  predicate PathCovers(prefix: string, path: string) {
    path == prefix || (|prefix| < |path| && path[..|prefix|] == prefix && path[|prefix|] == '/')
  }

  lemma PathCoversTransitive(a: string, b: string, c: string)
    requires PathCovers(a, b) && PathCovers(b, c)
    ensures PathCovers(a, c)
  {
    if a != b && b != c {
      assert c[..|a|] == b[..|a|];
      assert c[|a|] == b[|a|];
    }
  }

  lemma PathCoversSplit(prefix: string, path: string)
    requires PathCovers(prefix, path)
    ensures Split(prefix, '/') <= Split(path, '/')
  {
    if path != prefix {
      assert path == prefix + ['/'] + path[|prefix| + 1..];
      SplitAt(prefix, path[|prefix| + 1..], '/');
    }
  }

  lemma {:induction false} JoinPrefix(a: seq<string>, b: seq<string>)
    requires a != [] && a <= b
    ensures PathCovers(Join(a, '/'), Join(b, '/'))
  {
    if a == b {
    } else if |a| == 1 {
      JoinHead(b, '/');
    } else {
      JoinHead(a, '/');
      JoinHead(b, '/');
      JoinPrefix(a[1..], b[1..]);
      var ja, jb, h := Join(a[1..], '/'), Join(b[1..], '/'), a[0] + ['/'];
      assert Join(a, '/') == h + ja && Join(b, '/') == h + jb;
      assert PathCovers(h + ja, h + jb) by { ShiftCovers(h, ja, jb); }
    }
  }

  lemma ShiftCovers(h: string, a: string, b: string)
    requires PathCovers(a, b)
    ensures PathCovers(h + a, h + b)
  {
    if a != b {
      assert (h + b)[..|h + a|] == h + b[..|a|];
    }
  }

  /** On joined slash-free lists, the boundary test is list prefix. */
  lemma PathCoversIsListPrefix(a: seq<string>, b: seq<string>)
    requires a != [] && b != [] && Free(a, '/') && Free(b, '/')
    ensures PathCovers(Join(a, '/'), Join(b, '/')) <==> a <= b
  {
    SplitJoin(a, '/');
    SplitJoin(b, '/');
    if PathCovers(Join(a, '/'), Join(b, '/')) {
      PathCoversSplit(Join(a, '/'), Join(b, '/'));
    }
    if a <= b { JoinPrefix(a, b); }
  }
}

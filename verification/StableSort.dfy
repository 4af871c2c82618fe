/**
 The stable sort of the Rust standard library, as far as the model uses it: the result is in order,
 holds the same elements, and keeps elements that tie in the order they came.
 */
module StableSort {
  import First

  /** Where an element goes: before the first one it may stand before. */
  function Place<T>(before: (T, T) -> bool, x: T, s: seq<T>): (k: nat)
    ensures k <= |s|
    ensures forall i :: 0 <= i < k ==> !before(x, s[i])
    ensures k < |s| ==> before(x, s[k])
  {
    First.Where(s, y => before(x, y))
  }

  function Insert<T>(before: (T, T) -> bool, x: T, s: seq<T>): seq<T> {
    var k := Place(before, x, s);
    s[..k] + [x] + s[k..]
  }

  function Sort<T>(before: (T, T) -> bool, s: seq<T>): seq<T> {
    if s == [] then [] else Insert(before, s[0], Sort(before, s[1..]))
  }

  /** `before` compares every two elements, and consistently. */
  ghost predicate Total<T(!new)>(before: (T, T) -> bool) {
    && (forall a, b :: before(a, b) || before(b, a))
    && (forall a, b, c :: before(a, b) && before(b, c) ==> before(a, c))
  }

  ghost predicate InOrder<T>(before: (T, T) -> bool, s: seq<T>) {
    forall i, j :: 0 <= i < j < |s| ==> before(s[i], s[j])
  }

  lemma InsertAt<T>(before: (T, T) -> bool, x: T, s: seq<T>, k: nat)
    requires k <= |s| && (forall i :: 0 <= i < k ==> !before(x, s[i])) && (k < |s| ==> before(x, s[k]))
    ensures Insert(before, x, s) == s[..k] + [x] + s[k..]
  {
    var p := Place(before, x, s);
    assert p == k;
  }

  lemma InsertAdds<T>(before: (T, T) -> bool, x: T, s: seq<T>)
    ensures multiset(Insert(before, x, s)) == multiset{x} + multiset(s)
  {
    var k := Place(before, x, s);
    assert s == s[..k] + s[k..];
  }

  lemma InsertOrders<T(!new)>(before: (T, T) -> bool, x: T, s: seq<T>)
    requires Total(before) && InOrder(before, s)
    ensures InOrder(before, Insert(before, x, s))
  {
    var k, t := Place(before, x, s), Insert(before, x, s);
    forall i, j | 0 <= i < j < |t| ensures before(t[i], t[j]) {
      if i < k && j < k { assert t[i] == s[i] && t[j] == s[j]; }
      else if i < k && j == k { assert t[i] == s[i] && !before(x, s[i]); }
      else if i < k { assert t[i] == s[i] && t[j] == s[j - 1]; }
      else if i == k {
        assert t[i] == x && t[j] == s[j - 1] && before(x, s[k]);
        if j - 1 > k { assert before(s[k], s[j - 1]); }
      } else { assert t[i] == s[i - 1] && t[j] == s[j - 1]; }
    }
  }

  lemma {:induction false} SortAdds<T>(before: (T, T) -> bool, s: seq<T>)
    ensures multiset(Sort(before, s)) == multiset(s) && |Sort(before, s)| == |s|
  {
    if s != [] {
      SortAdds(before, s[1..]);
      InsertAdds(before, s[0], Sort(before, s[1..]));
      assert s == [s[0]] + s[1..];
    }
  }

  lemma {:induction false} SortOrders<T(!new)>(before: (T, T) -> bool, s: seq<T>)
    requires Total(before)
    ensures InOrder(before, Sort(before, s))
  {
    if s != [] {
      SortOrders(before, s[1..]);
      InsertOrders(before, s[0], Sort(before, s[1..]));
    }
  }

  /** What is in order already stays as it is. */
  lemma {:induction false} SortOfOrdered<T>(before: (T, T) -> bool, s: seq<T>)
    requires InOrder(before, s)
    ensures Sort(before, s) == s
  {
    if s != [] {
      assert InOrder(before, s[1..]);
      SortOfOrdered(before, s[1..]);
      assert |s| > 1 ==> s[1..][0] == s[1];
      InsertAt(before, s[0], s[1..], 0);
      assert s == [s[0]] + s[1..];
    }
  }

  /** Elements that tie are equal. */
  ghost predicate Untied<T>(before: (T, T) -> bool, s: seq<T>) {
    forall i, j :: 0 <= i < |s| && 0 <= j < |s| && before(s[i], s[j]) && before(s[j], s[i]) ==> s[i] == s[j]
  }

  lemma SameHead<T>(before: (T, T) -> bool, a: seq<T>, b: seq<T>)
    requires InOrder(before, a) && InOrder(before, b) && Untied(before, b)
    requires multiset(a) == multiset(b) && a != [] && b != []
    ensures a[0] == b[0]
  {
    assert a[0] in multiset(b) && b[0] in multiset(a);
    var i :| 0 <= i < |b| && b[i] == a[0];
    var j :| 0 <= j < |a| && a[j] == b[0];
  }

  lemma SameTail<T>(a: seq<T>, b: seq<T>)
    requires multiset(a) == multiset(b) && a != [] && b != [] && a[0] == b[0]
    ensures multiset(a[1..]) == multiset(b[1..])
  {
    assert a == [a[0]] + a[1..] && b == [b[0]] + b[1..];
    assert multiset(a[1..]) == multiset(a) - multiset{a[0]};
    assert multiset(b[1..]) == multiset(b) - multiset{b[0]};
  }

  /** Where nothing ties, there is one way to list the same elements in order. */
  lemma {:induction false} OneListing<T>(before: (T, T) -> bool, a: seq<T>, b: seq<T>)
    requires InOrder(before, a) && InOrder(before, b) && Untied(before, b) && multiset(a) == multiset(b)
    ensures a == b
    decreases |a|
  {
    if a == [] || b == [] {
      assert |multiset(a)| == |a| && |multiset(b)| == |b|;
    } else {
      SameHead(before, a, b);
      SameTail(a, b);
      OneListing(before, a[1..], b[1..]);
      assert a == [a[0]] + a[1..] && b == [b[0]] + b[1..];
    }
  }

  lemma SortIs<T(!new)>(before: (T, T) -> bool, s: seq<T>, listing: seq<T>)
    requires Total(before) && InOrder(before, listing) && Untied(before, listing) && multiset(s) == multiset(listing)
    ensures Sort(before, s) == listing
  {
    SortAdds(before, s);
    SortOrders(before, s);
    OneListing(before, Sort(before, s), listing);
  }

  function Pick<T>(s: seq<T>, pick: T -> bool): seq<T> {
    if s == [] then [] else (if pick(s[0]) then [s[0]] else []) + Pick(s[1..], pick)
  }

  lemma {:induction false} PickAppend<T>(a: seq<T>, b: seq<T>, pick: T -> bool)
    ensures Pick(a + b, pick) == Pick(a, pick) + Pick(b, pick)
  {
    if a == [] {
      assert a + b == b;
    } else {
      assert (a + b)[1..] == a[1..] + b && (a + b)[0] == a[0];
      PickAppend(a[1..], b, pick);
      var head := if pick(a[0]) then [a[0]] else [];
      assert head + (Pick(a[1..], pick) + Pick(b, pick)) == head + Pick(a[1..], pick) + Pick(b, pick);
    }
  }

  lemma {:induction false} PickNone<T>(s: seq<T>, pick: T -> bool)
    requires forall i :: 0 <= i < |s| ==> !pick(s[i])
    ensures Pick(s, pick) == []
  {
    if s != [] {
      assert forall i :: 0 <= i < |s[1..]| ==> s[1..][i] == s[i + 1];
      PickNone(s[1..], pick);
    }
  }

  lemma PickPast<T>(a: seq<T>, x: T, b: seq<T>, pick: T -> bool)
    requires pick(x) ==> Pick(a, pick) == []
    ensures Pick(a + ([x] + b), pick) == Pick([x] + (a + b), pick)
  {
    PickAppend(a, [x] + b, pick);
    PickAppend([x], b, pick);
    PickAppend([x], a + b, pick);
    PickAppend(a, b, pick);
    assert [x][1..] == [];
    assert Pick([x], pick) == if pick(x) then [x] else [];
  }

  lemma PickMoved<T>(s: seq<T>, k: nat, x: T, pick: T -> bool)
    requires k <= |s| && (pick(x) ==> Pick(s[..k], pick) == [])
    ensures Pick(s[..k] + [x] + s[k..], pick) == Pick([x] + s, pick)
  {
    PickPast(s[..k], x, s[k..], pick);
    assert s[..k] + s[k..] == s && s[..k] + [x] + s[k..] == s[..k] + ([x] + s[k..]);
  }

  lemma NonePickedBefore<T(!new)>(before: (T, T) -> bool, x: T, s: seq<T>, pick: T -> bool)
    requires pick(x) && forall a, b :: pick(a) && pick(b) ==> before(a, b)
    ensures Pick(s[..Place(before, x, s)], pick) == []
  {
    var k := Place(before, x, s);
    forall i | 0 <= i < k ensures !pick(s[..k][i]) { assert !before(x, s[i]); }
    PickNone(s[..k], pick);
  }

  lemma InsertIsStable<T(!new)>(before: (T, T) -> bool, x: T, s: seq<T>, pick: T -> bool)
    requires forall a, b :: pick(a) && pick(b) ==> before(a, b)
    ensures Pick(Insert(before, x, s), pick) == Pick([x] + s, pick)
  {
    if pick(x) { NonePickedBefore(before, x, s, pick); }
    PickMoved(s, Place(before, x, s), x, pick);
  }

  /** Elements that tie with one another keep the order they came in. */
  lemma {:induction false} SortIsStable<T(!new)>(before: (T, T) -> bool, s: seq<T>, pick: T -> bool)
    requires forall a, b :: pick(a) && pick(b) ==> before(a, b)
    ensures Pick(Sort(before, s), pick) == Pick(s, pick)
  {
    if s != [] {
      SortIsStable(before, s[1..], pick);
      InsertIsStable(before, s[0], Sort(before, s[1..]), pick);
      assert ([s[0]] + Sort(before, s[1..]))[1..] == Sort(before, s[1..]);
    }
  }
}

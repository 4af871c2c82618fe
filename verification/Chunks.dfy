/**
 Reassembling a payload or blob from its chunks (crates/stickleback/src/drop_io.rs): sort by
 offset, demand that each chunk starts where the last one ended, hash the whole once. Whether the
 arrival order of chunks can matter is decided exactly.
 */
module Chunks {
  import opened Wrappers
  import opened Drop
  import StableSort

  datatype Chunk = Chunk(offset: U64, bytes: Bytes)

  datatype ChunkError = ChunkLayout(offset: nat) | FalseChunkDigest

  // ---------- The stable sort ----------

  const BY_OFFSET: (Chunk, Chunk) -> bool := (a: Chunk, b: Chunk) => a.offset <= b.offset

  /** Sorting by offset; chunks at one offset keep their order. */
  function SortByOffset(s: seq<Chunk>): seq<Chunk> {
    StableSort.Sort(BY_OFFSET, s)
  }

  ghost predicate Sorted(s: seq<Chunk>) {
    forall i, j :: 0 <= i < j < |s| ==> s[i].offset <= s[j].offset
  }

  lemma SortSorts(s: seq<Chunk>)
    ensures Sorted(SortByOffset(s)) && multiset(SortByOffset(s)) == multiset(s)
  {
    StableSort.SortAdds(BY_OFFSET, s);
    StableSort.SortOrders(BY_OFFSET, s);
    var t := SortByOffset(s);
    forall i, j | 0 <= i < j < |t| ensures t[i].offset <= t[j].offset { assert BY_OFFSET(t[i], t[j]); }
  }

  lemma HeadTail(s: seq<Chunk>)
    requires s != []
    ensures multiset(s) == multiset{s[0]} + multiset(s[1..])
  {
    assert s == [s[0]] + s[1..];
  }

  // ---------- Assembly ----------

  /** What the rest of a sorted list adds to the bytes so far. */
  function Append(sorted: seq<Chunk>, expected: nat, bytes: Bytes): Result<Bytes, ChunkError> {
    if sorted == [] then Ok(bytes)
    else if sorted[0].offset != expected then Err(ChunkLayout(sorted[0].offset))
    else if expected + |sorted[0].bytes| > U64_MAX then Err(ChunkLayout(sorted[0].offset))
    else Append(sorted[1..], expected + |sorted[0].bytes|, bytes + sorted[0].bytes)
  }

  function Assembled(chunks: seq<Chunk>, digest: Bytes, hash: Bytes -> Bytes): Result<Bytes, ChunkError> {
    var joined := Append(SortByOffset(chunks), 0, []);
    if joined.Ok? && hash(joined.value) != digest then Err(FalseChunkDigest) else joined
  }

  method AssembleChunks(chunks: seq<Chunk>, digest: Bytes, hash: Bytes -> Bytes) returns (r: Result<Bytes, ChunkError>)
    ensures r == Assembled(chunks, digest, hash)
  {
    var sorted := SortByOffset(chunks);
    var bytes: Bytes := [];
    var expected := 0;
    for i := 0 to |sorted|
      invariant 0 <= expected && Append(sorted, 0, []) == Append(sorted[i..], expected, bytes)
    {
      assert sorted[i..][0] == sorted[i] && sorted[i..][1..] == sorted[i + 1..];
      if sorted[i].offset != expected {
        return Err(ChunkLayout(sorted[i].offset));
      }
      bytes := bytes + sorted[i].bytes;
      if expected + |sorted[i].bytes| > U64_MAX {
        return Err(ChunkLayout(sorted[i].offset));
      }
      expected := expected + |sorted[i].bytes|;
    }
    assert sorted[|sorted|..] == [];
    r := if hash(bytes) != digest then Err(FalseChunkDigest) else Ok(bytes);
  }

  /** The bytes of a chunk stand at its offset. */
  ghost predicate StandsIn(x: Chunk, bytes: Bytes) {
    x.offset + |x.bytes| <= |bytes| && bytes[x.offset..x.offset + |x.bytes|] == x.bytes
  }

  function TotalBytes(s: seq<Chunk>): nat {
    if s == [] then 0 else |s[0].bytes| + TotalBytes(s[1..])
  }

  lemma {:induction false} AppendPlaces(sorted: seq<Chunk>, bytes: Bytes, out: Bytes)
    requires Append(sorted, |bytes|, bytes) == Ok(out)
    ensures bytes <= out && |out| == |bytes| + TotalBytes(sorted)
    ensures forall x :: x in sorted ==> StandsIn(x, out)
    decreases |sorted|
  {
    if sorted != [] {
      var longer := bytes + sorted[0].bytes;
      AppendPlaces(sorted[1..], longer, out);
      assert out[|bytes|..|longer|] == longer[|bytes|..] == sorted[0].bytes;
      assert forall x :: x in sorted ==> x == sorted[0] || x in sorted[1..];
    }
  }

  /** What was assembled: the digest is right, and every chunk that arrived stands at its offset. */
  lemma AssembledMeans(chunks: seq<Chunk>, digest: Bytes, hash: Bytes -> Bytes)
    requires Assembled(chunks, digest, hash).Ok?
    ensures var bytes := Assembled(chunks, digest, hash).value;
            && hash(bytes) == digest && |bytes| == TotalBytes(SortByOffset(chunks))
            && forall x :: x in multiset(chunks) ==> StandsIn(x, bytes)
  {
    SortSorts(chunks);
    AppendPlaces(SortByOffset(chunks), [], Assembled(chunks, digest, hash).value);
    assert forall x :: x in multiset(chunks) ==> x in multiset(SortByOffset(chunks));
  }

  /** Each chunk begins where the ones before it end. */
  ghost predicate Contiguous(sorted: seq<Chunk>, start: nat)
    decreases |sorted|
  {
    sorted != [] ==> sorted[0].offset == start && Contiguous(sorted[1..], start + |sorted[0].bytes|)
  }

  lemma {:induction false} AppendIff(sorted: seq<Chunk>, bytes: Bytes)
    requires |bytes| <= U64_MAX
    ensures Append(sorted, |bytes|, bytes).Ok?
            <==> Contiguous(sorted, |bytes|) && |bytes| + TotalBytes(sorted) <= U64_MAX
    decreases |sorted|
  {
    if sorted != [] && sorted[0].offset == |bytes| && |bytes| + |sorted[0].bytes| <= U64_MAX {
      AppendIff(sorted[1..], bytes + sorted[0].bytes);
    }
  }

  /** Chunks are joined exactly when, in offset order, they leave no gap and fit, and what they make has the digest. */
  lemma AssembledIff(chunks: seq<Chunk>, digest: Bytes, hash: Bytes -> Bytes)
    ensures var sorted := SortByOffset(chunks);
            && (Append(sorted, 0, []).Ok? <==> Contiguous(sorted, 0) && TotalBytes(sorted) <= U64_MAX)
            && (Assembled(chunks, digest, hash).Ok? <==>
                  Append(sorted, 0, []).Ok? && hash(Append(sorted, 0, []).value) == digest)
  {
    AppendIff(SortByOffset(chunks), []);
  }

  // ---------- Does the order of arrival matter? ----------

  /** An empty chunk lies at the offset of a non-empty one. */
  ghost predicate Tied(chunks: multiset<Chunk>) {
    exists x, y :: x in chunks && y in chunks && x.offset == y.offset && x.bytes == [] && y.bytes != []
  }

  /** A second chunk at the offset just filled stops the assembly there. */
  lemma RepeatedOffsetFails(sorted: seq<Chunk>, y: Chunk, expected: nat, bytes: Bytes)
    requires sorted != [] && Sorted(sorted) && sorted[0].bytes != []
    requires y in sorted[1..] && y.offset == sorted[0].offset
    ensures Append(sorted, expected, bytes) == Err(ChunkLayout(sorted[0].offset))
  {
    var k :| 0 <= k < |sorted[1..]| && sorted[1..][k] == y;
    assert sorted[k + 1] == y;
    assert sorted[1].offset == sorted[0].offset;
  }

  lemma MemberOfTail(s: seq<Chunk>, y: Chunk)
    requires s != [] && y in multiset(s) && y != s[0]
    ensures y in s[1..]
  {
    HeadTail(s);
  }

  lemma HeadIsLeast(a: seq<Chunk>, b: seq<Chunk>)
    requires Sorted(a) && Sorted(b) && multiset(a) == multiset(b) && a != [] && b != []
    ensures a[0].offset <= b[0].offset
  {
    assert b[0] in multiset(a);
    var k :| 0 <= k < |a| && a[k] == b[0];
  }

  /** Different first chunks at one offset: both arrangements stop there. */
  lemma ClashAgrees(a: seq<Chunk>, b: seq<Chunk>, expected: nat, bytes: Bytes)
    requires a != [] && b != [] && Sorted(a) && Sorted(b) && multiset(a) == multiset(b) && !Tied(multiset(a))
    requires a[0].offset == b[0].offset && a[0] != b[0]
    ensures Append(a, expected, bytes) == Append(b, expected, bytes)
  {
    var x, y := a[0], b[0];
    assert x in multiset(a) && y in multiset(b);
    assert x.bytes != [] && y.bytes != [];
    MemberOfTail(a, y);
    MemberOfTail(b, x);
    RepeatedOffsetFails(a, y, expected, bytes);
    RepeatedOffsetFails(b, x, expected, bytes);
  }

  lemma SameTails(a: seq<Chunk>, b: seq<Chunk>)
    requires a != [] && b != [] && a[0] == b[0] && multiset(a) == multiset(b)
    ensures multiset(a[1..]) == multiset(b[1..])
  {
    HeadTail(a);
    HeadTail(b);
    assert multiset(a[1..]) == multiset(a) - multiset{a[0]};
  }

  lemma SameLength(a: seq<Chunk>, b: seq<Chunk>)
    requires multiset(a) == multiset(b)
    ensures |a| == |b|
  {
    assert |multiset(a)| == |a| && |multiset(b)| == |b|;
  }

  /** Two sorted arrangements without such a tie assemble alike, errors included. */
  lemma {:induction false} SortedAgree(a: seq<Chunk>, b: seq<Chunk>, expected: nat, bytes: Bytes)
    requires Sorted(a) && Sorted(b) && multiset(a) == multiset(b) && !Tied(multiset(a))
    ensures Append(a, expected, bytes) == Append(b, expected, bytes)
    decreases |a|
  {
    SameLength(a, b);
    if a != [] {
      HeadIsLeast(a, b);
      HeadIsLeast(b, a);
      if a[0] == b[0] {
        SameTails(a, b);
        TailKeeps(a);
        TailKeeps(b);
        SortedAgree(a[1..], b[1..], expected + |a[0].bytes|, bytes + a[0].bytes);
        SameHead(a, b, expected, bytes);
      } else {
        ClashAgrees(a, b, expected, bytes);
      }
    }
  }

  lemma TailKeeps(s: seq<Chunk>)
    requires s != [] && Sorted(s)
    ensures Sorted(s[1..]) && (Tied(multiset(s[1..])) ==> Tied(multiset(s)))
  {
    HeadTail(s);
  }

  lemma SameHead(a: seq<Chunk>, b: seq<Chunk>, expected: nat, bytes: Bytes)
    requires a != [] && b != [] && a[0] == b[0]
    requires Append(a[1..], expected + |a[0].bytes|, bytes + a[0].bytes)
            == Append(b[1..], expected + |a[0].bytes|, bytes + a[0].bytes)
    ensures Append(a, expected, bytes) == Append(b, expected, bytes)
  {
  }

  lemma {:induction false} FailsInside(before: seq<Chunk>, rest: seq<Chunk>, expected: nat, bytes: Bytes)
    requires |rest| >= 2 && rest[0].bytes != [] && rest[0].offset == rest[1].offset
    ensures Append(before + rest, expected, bytes).Err?
  {
    if before == [] {
      assert before + rest == rest;
      assert rest[1..][0] == rest[1];
    } else {
      assert (before + rest)[1..] == before[1..] + rest && (before + rest)[0] == before[0];
      FailsInside(before[1..], rest, expected + |before[0].bytes|, bytes + before[0].bytes);
    }
  }

  /** A non-empty chunk sorted in ahead of another at its offset makes the assembly fail. */
  lemma InsertedFirstFails(sorted: seq<Chunk>, x: Chunk, y: Chunk)
    requires Sorted(sorted) && x in sorted && x.offset == y.offset && y.bytes != []
    ensures Append(StableSort.Insert(BY_OFFSET, y, sorted), 0, []).Err?
  {
    var k := StableSort.Place(BY_OFFSET, y, sorted);
    var m :| 0 <= m < |sorted| && sorted[m] == x;
    assert k <= m;
    var rest := [y] + sorted[k..];
    assert rest[1] == sorted[k] && sorted[k].offset == y.offset;
    assert StableSort.Insert(BY_OFFSET, y, sorted) == sorted[..k] + rest;
    FailsInside(sorted[..k], rest, 0, []);
  }

  lemma Without(chunks: seq<Chunk>, y: Chunk) returns (rest: seq<Chunk>)
    requires y in chunks
    ensures multiset([y] + rest) == multiset(chunks) && multiset(chunks) == multiset(rest) + multiset{y}
  {
    var k :| 0 <= k < |chunks| && chunks[k] == y;
    rest := chunks[..k] + chunks[k + 1..];
    assert chunks == chunks[..k] + [y] + chunks[k + 1..];
  }

  /** Putting the non-empty chunk of a tie first makes the assembly fail. */
  lemma TieFails(chunks: seq<Chunk>, x: Chunk, y: Chunk, digest: Bytes, hash: Bytes -> Bytes)
    returns (other: seq<Chunk>)
    requires x in multiset(chunks) && y in multiset(chunks) && x.offset == y.offset && x.bytes == [] && y.bytes != []
    ensures multiset(other) == multiset(chunks) && Assembled(other, digest, hash).Err?
  {
    var rest := Without(chunks, y);
    other := [y] + rest;
    SortSorts(rest);
    assert x in multiset(rest);
    assert x in multiset(SortByOffset(rest));
    InsertedFirstFails(SortByOffset(rest), x, y);
    assert other[1..] == rest;
  }

  /**
   The order in which chunks arrive is immaterial exactly when no empty chunk lies at the offset of
   a non-empty one: then every arrangement gives the same bytes, and otherwise some arrangement of
   the very same chunks is refused.
   */
  lemma OrderIsImmaterialIffNoTie(chunks: seq<Chunk>, digest: Bytes, hash: Bytes -> Bytes)
    requires Assembled(chunks, digest, hash).Ok?
    ensures (forall other :: multiset(other) == multiset(chunks) ==>
            Assembled(other, digest, hash) == Assembled(chunks, digest, hash))
            <==> !Tied(multiset(chunks))
  {
    if Tied(multiset(chunks)) {
      var x, y :| x in multiset(chunks) && y in multiset(chunks) && x.offset == y.offset && x.bytes == []
          && y.bytes != [];
      var other := TieFails(chunks, x, y, digest, hash);
    } else {
      forall other | multiset(other) == multiset(chunks)
        ensures Assembled(other, digest, hash) == Assembled(chunks, digest, hash)
      {
        SortSorts(chunks);
        SortSorts(other);
        SortedAgree(SortByOffset(other), SortByOffset(chunks), 0, []);
      }
    }
  }

  /** The smallest such tie: two chunks that assemble in one order and are refused in the other. */
  lemma EmptyChunkExample(b: Byte, hash: Bytes -> Bytes)
    ensures Assembled([Chunk(0, []), Chunk(0, [b])], hash([b]), hash) == Ok([b])
    ensures Assembled([Chunk(0, [b]), Chunk(0, [])], hash([b]), hash) == Err(ChunkLayout(0))
  {
    var e, x := Chunk(0, []), Chunk(0, [b]);
    SortPair(e, x);
    SortPair(x, e);
    AppendPair(e, x, []);
    AppendPair(x, e, []);
    assert [] + e.bytes == [] && [] + x.bytes == [b];
  }

  lemma SortPair(p: Chunk, q: Chunk)
    requires p.offset <= q.offset
    ensures SortByOffset([p, q]) == [p, q]
  {
    StableSort.SortOfOrdered(BY_OFFSET, [p, q]);
  }

  lemma AppendPair(p: Chunk, q: Chunk, bytes: Bytes)
    requires p.offset == 0 && |p.bytes| <= 1 && |q.bytes| <= 1
    ensures Append([p, q], 0, bytes)
            == if q.offset != |p.bytes| then Err(ChunkLayout(q.offset)) else Ok(bytes + p.bytes + q.bytes)
  {
    assert [p, q][1..] == [q] && [q][1..] == [];
    assert Append([p, q], 0, bytes) == Append([q], |p.bytes|, bytes + p.bytes);
  }

  // ---------- Cutting and reassembling ----------

  /** The chunks of a byte string cut into consecutive pieces. */
  function CutAt(pieces: seq<Bytes>, offset: nat): seq<Chunk>
    requires offset + |Concat(pieces)| <= U64_MAX
  {
    if pieces == [] then []
    else [Chunk(offset, pieces[0])] + CutAt(pieces[1..], offset + |pieces[0]|)
  }

  function Concat(pieces: seq<Bytes>): Bytes {
    if pieces == [] then [] else pieces[0] + Concat(pieces[1..])
  }

  lemma {:induction false} CutSorted(pieces: seq<Bytes>, offset: nat)
    requires offset + |Concat(pieces)| <= U64_MAX && forall i :: 0 <= i < |pieces| ==> pieces[i] != []
    ensures Sorted(CutAt(pieces, offset))
    ensures forall i :: 0 <= i < |CutAt(pieces, offset)| ==>
            CutAt(pieces, offset)[i].bytes != [] && offset <= CutAt(pieces, offset)[i].offset
  {
    if pieces != [] { CutSorted(pieces[1..], offset + |pieces[0]|); }
  }

  lemma {:induction false} CutAppends(pieces: seq<Bytes>, offset: nat, bytes: Bytes)
    requires offset + |Concat(pieces)| <= U64_MAX
    ensures Append(CutAt(pieces, offset), offset, bytes) == Ok(bytes + Concat(pieces))
  {
    if pieces == [] {
      assert bytes + [] == bytes;
    } else {
      assert CutAt(pieces, offset)[1..] == CutAt(pieces[1..], offset + |pieces[0]|);
      CutAppends(pieces[1..], offset + |pieces[0]|, bytes + pieces[0]);
      assert (bytes + pieces[0]) + Concat(pieces[1..]) == bytes + (pieces[0] + Concat(pieces[1..]));
    }
  }

  /** Any byte string cut into non-empty pieces comes back, however the pieces are shuffled. */
  lemma ShuffledPiecesReassemble(pieces: seq<Bytes>, chunks: seq<Chunk>, hash: Bytes -> Bytes)
    requires |Concat(pieces)| <= U64_MAX && forall i :: 0 <= i < |pieces| ==> pieces[i] != []
    requires multiset(chunks) == multiset(CutAt(pieces, 0))
    ensures Assembled(chunks, hash(Concat(pieces)), hash) == Ok(Concat(pieces))
  {
    var cut := CutAt(pieces, 0);
    CutSorted(pieces, 0);
    CutAppends(pieces, 0, []);
    assert [] + Concat(pieces) == Concat(pieces);
    assert !Tied(multiset(cut)) by {
      assert forall x :: x in multiset(cut) ==> x in cut;
    }
    SortSorts(chunks);
    SortedAgree(SortByOffset(chunks), cut, 0, []);
  }
}

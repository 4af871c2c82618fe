/**
 What the drop reader of crates/stickleback/src/drop.rs accepts, said of the bytes: the fields of
 the cover at their offsets, the manifest, one frame per entry and nothing else, every digest
 matching, every limit kept. The reader accepts an input exactly when it is laid out so.
 */
module DropLayout {
  import opened Wrappers
  import opened Drop
  import opened DropTheorems

  // ---------- The layout ----------

  ghost predicate OfKind(r: Record, kind: nat) {
    match r
    case Operation(_, _) => kind == 1
    case PayloadChunk(_, _, _) => kind == 2
    case BlobChunk(_, _, _) => kind == 3
    case Evidence(_, _, _, _) => kind == 4
  }

  /** The payload is the record, or a kind this reader does not know and need not understand. */
  ghost predicate Reads(c: Codec, e: Entry, payload: Bytes, record: Option<Record>) {
    match record
    case Some(r) =>
      && OfKind(r, e.kind) && (e.critical <==> r.Evidence? && r.critical)
      && c.recordBytes(r) == payload && c.readRecord(payload) == Some(r)
    case None => e.kind !in {1, 2, 3, 4} && !e.critical
  }

  ghost predicate FrameLaid(c: Codec, limits: Limits, e: Entry, header: Bytes, payload: Bytes, record: Option<Record>)
    requires |header| == 12
  {
    && header[0] as int + 256 * (header[1] as int) == e.kind
    && (header[2] != 0 || header[3] != 0 <==> e.critical)
    && FromLittleEndian(header[4..12]) == e.byteLen == |payload|
    && e.byteLen <= limits.maxRecordBytes && c.hash(payload) == e.digest
    && Reads(c, e, payload, record)
  }

  ghost predicate FramesLaid(c: Codec, limits: Limits, entries: seq<Entry>, i: nat, bytes: Bytes,
                             read: seq<Option<Record>>)
    requires i <= |entries|
    decreases |entries| - i
  {
    if i == |entries| then bytes == [] && read == []
    else
      var n := 12 + entries[i].byteLen;
      && n <= |bytes| && read != []
      && FrameLaid(c, limits, entries[i], bytes[..12], bytes[12..n], read[0])
      && FramesLaid(c, limits, entries, i + 1, bytes[n..], read[1..])
  }

  ghost predicate BodyLaid(c: Codec, limits: Limits, body: Bytes, m: Manifest, read: seq<Option<Record>>) {
    && |body| >= 8
    && var n := 8 + FromLittleEndian(body[..8]);
    && n <= |body| && n - 8 <= limits.maxManifestBytes
    && c.manifestBytes(m) == body[8..n] && c.readManifest(body[8..n]) == Some(m)
    && m.version == 1 && |m.records| <= limits.maxRecords
    && FramesLaid(c, limits, m.records, 0, body[n..], read)
  }

  /** The cover: magic, version 1, a suite, the length of what follows, and its digest. */
  ghost predicate CoverLaid(c: Codec, limits: Limits, input: Bytes, suite: nat, body: Bytes) {
    && |input| >= 52 && input[..8] == [0x4D, 0x45, 0x52, 0x45, 0x44, 0x52, 0x50, 0x00]
    && input[8] == 1 && input[9] == 0 && input[10] as int + 256 * (input[11] as int) == suite
    && FromLittleEndian(input[12..20]) == |body| <= limits.maxProtectedBytes
    && 52 + |body| <= |input| && input[52..52 + |body|] == body
    && input[20..52] == c.hash(body)
  }

  function Present(read: seq<Option<Record>>): seq<Record> {
    if read == [] then [] else (if read[0].Some? then [read[0].value] else []) + Present(read[1..])
  }

  lemma {:induction false} PresentSize(read: seq<Option<Record>>)
    ensures |Present(read)| <= |read|
  {
    if read != [] { PresentSize(read[1..]); }
  }

  /** What an accepted drop is answered with: its records, and how many were skipped. */
  ghost function Accepted(c: Codec, m: Manifest, read: seq<Option<Record>>): Visited {
    PresentSize(read);
    Visited(Present(read), Ok(Report(c.hash(c.manifestBytes(m)), |m.records|, |Present(read)|,
                                     |read| - |Present(read)|)))
  }

  // ---------- Fields ----------

  lemma TwoBytes(b: Bytes)
    requires |b| == 2
    ensures FromLittleEndian(b) == b[0] as int + 256 * (b[1] as int)
  {
    assert b[1..][1..] == [] && b[1..][0] == b[1];
    assert FromLittleEndian(b[1..]) == b[1];
  }

  lemma HeaderMeans(header: Bytes, e: Entry)
    requires |header| == 12
    ensures HeaderMatches(header, e)
            <==> && header[0] as int + 256 * (header[1] as int) == e.kind
                 && (header[2] != 0 || header[3] != 0 <==> e.critical)
                 && FromLittleEndian(header[4..12]) == e.byteLen
  {
    TwoBytes(header[..2]);
    TwoBytes(header[2..4]);
    assert header[4..] == header[4..12] && header[..2][0] == header[0] && header[2..4][0] == header[2];
  }

  lemma CoverMeans(c: Codec, limits: Limits, input: Bytes, suite: nat, body: Bytes)
    ensures CoverLaid(c, limits, input, suite, body)
            <==> && ReadCover(input).Ok? && var cover := ReadCover(input).value;
                 && cover.suite == suite && cover.protectedBytes == |body| <= limits.maxProtectedBytes
                 && |body| <= |cover.rest| && cover.rest[..|body|] == body && cover.digest == c.hash(body)
  {
    if |input| >= 52 {
      TwoBytes(input[8..10]);
      TwoBytes(input[10..12]);
      assert input[8..10][0] == input[8] && input[8..10][1] == input[9];
      assert input[10..12][0] == input[10] && input[10..12][1] == input[11];
      if 52 + |body| <= |input| { assert input[52..][..|body|] == input[52..52 + |body|]; }
    }
  }

  // ---------- Frames ----------

  lemma InterpretMeans(c: Codec, e: Entry, index: nat, payload: Bytes, record: Option<Record>)
    ensures Interpret(c, e, index, payload) == Ok(record) <==> Reads(c, e, payload, record)
  {
  }

  lemma FrameReadMeans(c: Codec, limits: Limits, e: Entry, index: nat, protectedBytes: nat, cur: Cursor,
                       record: Option<Record>)
    requires 12 + e.byteLen <= |cur.rest| && |cur.hashed| + 12 + e.byteLen <= protectedBytes
    ensures var n := 12 + e.byteLen;
            ReadFrame(c, limits, e, index, protectedBytes, cur)
            == Ok(FrameRead(record, Cursor(cur.hashed + cur.rest[..n], cur.rest[n..])))
            <==> FrameLaid(c, limits, e, cur.rest[..12], cur.rest[12..n], record)
  {
    var n := 12 + e.byteLen;
    HeaderMeans(cur.rest[..12], e);
    InterpretMeans(c, e, index, cur.rest[12..n], record);
    assert cur.rest[12..][..e.byteLen] == cur.rest[12..n] && cur.rest[12..][e.byteLen..] == cur.rest[n..];
    assert (cur.hashed + cur.rest[..12]) + cur.rest[12..n] == cur.hashed + cur.rest[..n];
  }

  /** The run over frames that read so. */
  ghost function RunOf(read: seq<Option<Record>>, end: Cursor): Run {
    PresentSize(read);
    Run(Present(read), |read| - |Present(read)|, Ok(end))
  }

  lemma RunOfNext(read: seq<Option<Record>>, end: Cursor)
    requires read != []
    ensures RunOf(read, end) == Prepend(Delivered(read[0]), Skipped(read[0]), RunOf(read[1..], end))
  {
  }

  lemma LaidFirst(c: Codec, limits: Limits, e: Entry, index: nat, protectedBytes: nat,
                  hashed: Bytes, bytes: Bytes, tail: Bytes, record: Option<Record>)
    requires 12 + e.byteLen <= |bytes| && |hashed| + |bytes| <= protectedBytes
    requires FrameLaid(c, limits, e, bytes[..12], bytes[12..12 + e.byteLen], record)
    ensures var n := 12 + e.byteLen;
            ReadFrame(c, limits, e, index, protectedBytes, Cursor(hashed, bytes + tail))
            == Ok(FrameRead(record, Cursor(hashed + bytes[..n], bytes[n..] + tail)))
  {
    var n, cur := 12 + e.byteLen, Cursor(hashed, bytes + tail);
    assert cur.rest[..12] == bytes[..12] && cur.rest[12..n] == bytes[12..n] && cur.rest[..n] == bytes[..n];
    assert cur.rest[n..] == bytes[n..] + tail;
    FrameReadMeans(c, limits, e, index, protectedBytes, cur, record);
  }

  lemma LaidStep(c: Codec, limits: Limits, entries: seq<Entry>, i: nat, protectedBytes: nat,
                 hashed: Bytes, bytes: Bytes, tail: Bytes, read: seq<Option<Record>>)
    requires i < |entries| && read != [] && 12 + entries[i].byteLen <= |bytes| && |hashed| + |bytes| <= protectedBytes
    requires FrameLaid(c, limits, entries[i], bytes[..12], bytes[12..12 + entries[i].byteLen], read[0])
    requires var n := 12 + entries[i].byteLen;
             ReadFrames(c, limits, entries, i + 1, protectedBytes, Cursor(hashed + bytes[..n], bytes[n..] + tail))
             == RunOf(read[1..], Cursor((hashed + bytes[..n]) + bytes[n..], tail))
    ensures ReadFrames(c, limits, entries, i, protectedBytes, Cursor(hashed, bytes + tail))
            == RunOf(read, Cursor(hashed + bytes, tail))
  {
    var n := 12 + entries[i].byteLen;
    var after := Cursor(hashed + bytes[..n], bytes[n..] + tail);
    LaidFirst(c, limits, entries[i], i, protectedBytes, hashed, bytes, tail, read[0]);
    FramesPrepend(c, limits, entries, i, protectedBytes, Cursor(hashed, bytes + tail), FrameRead(read[0], after));
    assert (hashed + bytes[..n]) + bytes[n..] == hashed + bytes;
    RunOfNext(read, Cursor(hashed + bytes, tail));
  }

  /** Frames that are laid out are read to their end. */
  lemma {:induction false} LaidIsRead(c: Codec, limits: Limits, entries: seq<Entry>, i: nat, protectedBytes: nat,
                                      hashed: Bytes, bytes: Bytes, tail: Bytes, read: seq<Option<Record>>)
    requires i <= |entries| && FramesLaid(c, limits, entries, i, bytes, read)
    requires |hashed| + |bytes| <= protectedBytes
    ensures ReadFrames(c, limits, entries, i, protectedBytes, Cursor(hashed, bytes + tail))
            == RunOf(read, Cursor(hashed + bytes, tail))
    decreases |entries| - i
  {
    if i == |entries| {
      assert bytes + tail == tail && hashed + bytes == hashed;
    } else {
      var n := 12 + entries[i].byteLen;
      LaidIsRead(c, limits, entries, i + 1, protectedBytes, hashed + bytes[..n], bytes[n..], tail, read[1..]);
      LaidStep(c, limits, entries, i, protectedBytes, hashed, bytes, tail, read);
    }
  }

  lemma FrameUses(c: Codec, limits: Limits, e: Entry, index: nat, protectedBytes: nat, cur: Cursor)
    requires ReadFrame(c, limits, e, index, protectedBytes, cur).Ok?
    ensures 12 + e.byteLen <= |cur.rest| && |cur.hashed| + 12 + e.byteLen <= protectedBytes
    ensures var n := 12 + e.byteLen;
            ReadFrame(c, limits, e, index, protectedBytes, cur).value.after
            == Cursor(cur.hashed + cur.rest[..n], cur.rest[n..])
  {
    var n := 12 + e.byteLen;
    assert cur.rest[12..][e.byteLen..] == cur.rest[n..];
    assert (cur.hashed + cur.rest[..12]) + cur.rest[12..][..e.byteLen] == cur.hashed + cur.rest[..n];
  }

  lemma CutFrames(hashed: Bytes, rest: Bytes, n: nat, used: nat)
    requires 12 <= n && n + used <= |rest|
    ensures var bytes := rest[..n + used];
            && bytes[..12] == rest[..12] && bytes[12..n] == rest[12..n] && bytes[n..] == rest[n..][..used]
            && rest[n..][used..] == rest[n + used..]
            && (hashed + rest[..n]) + rest[n..][..used] == hashed + bytes
  {
  }

  lemma LaidNext(c: Codec, limits: Limits, entries: seq<Entry>, i: nat, bytes: Bytes, record: Option<Record>,
                 read: seq<Option<Record>>)
    requires i < |entries| && 12 + entries[i].byteLen <= |bytes|
    requires FrameLaid(c, limits, entries[i], bytes[..12], bytes[12..12 + entries[i].byteLen], record)
    requires FramesLaid(c, limits, entries, i + 1, bytes[12 + entries[i].byteLen..], read)
    ensures FramesLaid(c, limits, entries, i, bytes, [record] + read)
  {
    assert ([record] + read)[1..] == read;
  }

  /** A frame that is read was laid out. */
  lemma OneFrameRead(c: Codec, limits: Limits, e: Entry, i: nat, protectedBytes: nat, cur: Cursor)
    requires ReadFrame(c, limits, e, i, protectedBytes, cur).Ok?
    ensures 12 + e.byteLen <= |cur.rest|
    ensures var n, frame := 12 + e.byteLen, ReadFrame(c, limits, e, i, protectedBytes, cur).value;
            && frame.after == Cursor(cur.hashed + cur.rest[..n], cur.rest[n..])
            && FrameLaid(c, limits, e, cur.rest[..12], cur.rest[12..n], frame.record)
  {
    FrameUses(c, limits, e, i, protectedBytes, cur);
    FrameReadMeans(c, limits, e, i, protectedBytes, cur, ReadFrame(c, limits, e, i, protectedBytes, cur).value.record);
  }

  /** The first frame of a run that succeeds was laid out, and the rest of the run goes on after it. */
  lemma FirstFrameRead(c: Codec, limits: Limits, entries: seq<Entry>, i: nat, protectedBytes: nat, cur: Cursor)
    returns (frame: FrameRead)
    requires i < |entries| && ReadFrames(c, limits, entries, i, protectedBytes, cur).outcome.Ok?
    ensures 12 + entries[i].byteLen <= |cur.rest|
    ensures var n := 12 + entries[i].byteLen;
            && frame.after == Cursor(cur.hashed + cur.rest[..n], cur.rest[n..])
            && FrameLaid(c, limits, entries[i], cur.rest[..12], cur.rest[12..n], frame.record)
    ensures ReadFrames(c, limits, entries, i + 1, protectedBytes, frame.after).outcome
            == ReadFrames(c, limits, entries, i, protectedBytes, cur).outcome
  {
    frame := ReadFrame(c, limits, entries[i], i, protectedBytes, cur).value;
    OneFrameRead(c, limits, entries[i], i, protectedBytes, cur);
    FramesPrepend(c, limits, entries, i, protectedBytes, cur, frame);
  }

  lemma ReadNext(c: Codec, limits: Limits, entries: seq<Entry>, i: nat, cur: Cursor, frame: FrameRead, more: nat,
                 rest: seq<Option<Record>>)
    requires i < |entries| && 12 + entries[i].byteLen + more <= |cur.rest|
    requires var n := 12 + entries[i].byteLen;
             && frame.after == Cursor(cur.hashed + cur.rest[..n], cur.rest[n..])
             && FrameLaid(c, limits, entries[i], cur.rest[..12], cur.rest[12..n], frame.record)
    requires FramesLaid(c, limits, entries, i + 1, frame.after.rest[..more], rest)
    ensures var used := 12 + entries[i].byteLen + more;
            && FramesLaid(c, limits, entries, i, cur.rest[..used], [frame.record] + rest)
            && Cursor(frame.after.hashed + frame.after.rest[..more], frame.after.rest[more..])
               == Cursor(cur.hashed + cur.rest[..used], cur.rest[used..])
  {
    var n := 12 + entries[i].byteLen;
    CutFrames(cur.hashed, cur.rest, n, more);
    LaidNext(c, limits, entries, i, cur.rest[..n + more], frame.record, rest);
  }

  /** The run ended after so many bytes, and those are laid out. */
  ghost predicate EndsAfter(c: Codec, limits: Limits, entries: seq<Entry>, i: nat, cur: Cursor, end: Cursor, used: nat,
                            read: seq<Option<Record>>)
    requires i <= |entries|
  {
    && used <= |cur.rest| && FramesLaid(c, limits, entries, i, cur.rest[..used], read)
    && end == Cursor(cur.hashed + cur.rest[..used], cur.rest[used..])
  }

  lemma EndsAfterNext(c: Codec, limits: Limits, entries: seq<Entry>, i: nat, cur: Cursor, end: Cursor,
                      frame: FrameRead, more: nat, rest: seq<Option<Record>>)
    requires i < |entries| && 12 + entries[i].byteLen <= |cur.rest|
    requires var n := 12 + entries[i].byteLen;
             && frame.after == Cursor(cur.hashed + cur.rest[..n], cur.rest[n..])
             && FrameLaid(c, limits, entries[i], cur.rest[..12], cur.rest[12..n], frame.record)
    requires EndsAfter(c, limits, entries, i + 1, frame.after, end, more, rest)
    ensures EndsAfter(c, limits, entries, i, cur, end, 12 + entries[i].byteLen + more, [frame.record] + rest)
  {
    ReadNext(c, limits, entries, i, cur, frame, more, rest);
  }

  lemma EndsAfterNone(c: Codec, limits: Limits, entries: seq<Entry>, cur: Cursor)
    ensures EndsAfter(c, limits, entries, |entries|, cur, cur, 0, [])
  {
    assert cur.hashed + cur.rest[..0] == cur.hashed;
  }

  /** What was read to its end was laid out. */
  lemma {:induction false} ReadIsLaid(c: Codec, limits: Limits, entries: seq<Entry>, i: nat, protectedBytes: nat,
                                      cur: Cursor)
    requires i <= |entries| && ReadFrames(c, limits, entries, i, protectedBytes, cur).outcome.Ok?
    ensures exists used, read ::
              EndsAfter(c, limits, entries, i, cur,
                        ReadFrames(c, limits, entries, i, protectedBytes, cur).outcome.value,
                        used, read)
    decreases |entries| - i
  {
    if i == |entries| {
      EndsAfterNone(c, limits, entries, cur);
    } else {
      var frame := FirstFrameRead(c, limits, entries, i, protectedBytes, cur);
      var end := ReadFrames(c, limits, entries, i, protectedBytes, cur).outcome.value;
      ReadIsLaid(c, limits, entries, i + 1, protectedBytes, frame.after);
      var more, rest :| EndsAfter(c, limits, entries, i + 1, frame.after, end, more, rest);
      EndsAfterNext(c, limits, entries, i, cur, end, frame, more, rest);
    }
  }

  // ---------- The whole input ----------

  lemma ManifestMeans(c: Codec, limits: Limits, body: Bytes, tail: Bytes, m: Manifest)
    requires |body| >= 8 && 8 + FromLittleEndian(body[..8]) <= |body|
    ensures var n := 8 + FromLittleEndian(body[..8]);
            ReadManifest(c, limits, |body|, Cursor([], body + tail))
            == Ok(ManifestRead(m, Cursor(body[..n], body[n..] + tail)))
            <==> && n - 8 <= limits.maxManifestBytes && c.manifestBytes(m) == body[8..n]
                 && c.readManifest(body[8..n]) == Some(m) && m.version == 1 && |m.records| <= limits.maxRecords
  {
    var n, whole := 8 + FromLittleEndian(body[..8]), body + tail;
    assert whole[..8] == body[..8] && whole[8..][..n - 8] == body[8..n] && whole[8..][n - 8..] == body[n..] + tail;
    assert ([] + body[..8]) + body[8..n] == body[..n];
  }

  /** The last checks pass on a run that ends after the whole body. */
  lemma ConcludesAccepted(c: Codec, cover: CoverRead, m: Manifest, read: seq<Option<Record>>, end: Cursor)
    requires |end.hashed| == cover.protectedBytes && cover.digest == c.hash(end.hashed)
    ensures Conclude(c, cover, m, RunOf(read, end)) == Accepted(c, m, read)
  {
  }

  lemma LaidBodyIsVisited(c: Codec, limits: Limits, cover: CoverRead, body: Bytes, m: Manifest,
                          read: seq<Option<Record>>)
    requires BodyLaid(c, limits, body, m, read)
    requires |body| <= |cover.rest| && cover.rest[..|body|] == body && cover.protectedBytes == |body|
    requires cover.protectedBytes <= limits.maxProtectedBytes && cover.digest == c.hash(body)
    ensures VisitBody(c, limits, cover) == Accepted(c, m, read)
  {
    var n, tail := 8 + FromLittleEndian(body[..8]), cover.rest[|body|..];
    var after := Cursor(body[..n], body[n..] + tail);
    assert cover.rest == body + tail;
    assert body[..n] + body[n..] == body;
    assert ReadManifest(c, limits, |body|, Cursor([], cover.rest)) == Ok(ManifestRead(m, after)) by {
      ManifestMeans(c, limits, body, tail, m);
    }
    assert ReadFrames(c, limits, m.records, 0, |body|, after) == RunOf(read, Cursor(body, tail)) by {
      LaidIsRead(c, limits, m.records, 0, |body|, body[..n], body[n..], tail, read);
    }
    VisitGoesOn(c, limits, cover, ManifestRead(m, after));
    ConcludesAccepted(c, cover, m, read, Cursor(body, tail));
  }

  /** Where the frames begin, when the manifest was read. */
  lemma ManifestUses(c: Codec, limits: Limits, protectedBytes: nat, rest: Bytes)
    requires ReadManifest(c, limits, protectedBytes, Cursor([], rest)).Ok?
    ensures |rest| >= 8
    ensures var n := 8 + FromLittleEndian(rest[..8]);
            && n <= |rest| && n <= protectedBytes
            && ReadManifest(c, limits, protectedBytes, Cursor([], rest)).value.after == Cursor(rest[..n], rest[n..])
  {
    var n := 8 + FromLittleEndian(rest[..8]);
    assert ([] + rest[..8]) + rest[8..][..n - 8] == rest[..n];
    assert rest[8..][n - 8..] == rest[n..];
  }

  lemma CutBody(rest: Bytes, n: nat, used: nat)
    requires 8 <= n && n + used <= |rest|
    ensures var body := rest[..n + used]; var tail := rest[n + used..];
            && body + tail == rest && body[..8] == rest[..8] && body[..n] == rest[..n] && body[n..] == rest[n..][..used]
            && body[n..] + tail == rest[n..] && rest[..n] + rest[n..][..used] == body
  {
  }

  lemma VisitedFrames(c: Codec, limits: Limits, cover: CoverRead, head: ManifestRead)
    returns (used: nat, read: seq<Option<Record>>)
    requires VisitBody(c, limits, cover).outcome.Ok?
    requires ReadManifest(c, limits, cover.protectedBytes, Cursor([], cover.rest)) == Ok(head)
    ensures used <= |head.after.rest| && |head.after.hashed| + used == cover.protectedBytes
    ensures FramesLaid(c, limits, head.manifest.records, 0, head.after.rest[..used], read)
    ensures cover.digest == c.hash(head.after.hashed + head.after.rest[..used])
  {
    VisitGoesOn(c, limits, cover, head);
    ReadIsLaid(c, limits, head.manifest.records, 0, cover.protectedBytes, head.after);
    var end := ReadFrames(c, limits, head.manifest.records, 0, cover.protectedBytes, head.after).outcome.value;
    used, read :| EndsAfter(c, limits, head.manifest.records, 0, head.after, end, used, read);
  }

  lemma VisitedBodyIsLaid(c: Codec, limits: Limits, cover: CoverRead) returns (m: Manifest, read: seq<Option<Record>>)
    requires VisitBody(c, limits, cover).outcome.Ok?
    ensures cover.protectedBytes <= |cover.rest| && cover.protectedBytes <= limits.maxProtectedBytes
    ensures var body := cover.rest[..cover.protectedBytes];
            BodyLaid(c, limits, body, m, read) && cover.digest == c.hash(body)
  {
    var head := ReadManifest(c, limits, cover.protectedBytes, Cursor([], cover.rest)).value;
    ManifestUses(c, limits, cover.protectedBytes, cover.rest);
    m := head.manifest;
    var n, used := 8 + FromLittleEndian(cover.rest[..8]), 0;
    used, read := VisitedFrames(c, limits, cover, head);
    CutBody(cover.rest, n, used);
    ManifestMeans(c, limits, cover.rest[..n + used], cover.rest[n + used..], m);
  }

  /** The input begins with a drop so laid out, with this manifest and these frames. */
  ghost predicate WellLaid(c: Codec, limits: Limits, input: Bytes, body: Bytes, m: Manifest,
                           read: seq<Option<Record>>)
  {
    CoverLaid(c, limits, input, 0, body) && BodyLaid(c, limits, body, m, read)
  }

  lemma LaidIsAccepted(c: Codec, limits: Limits, input: Bytes, body: Bytes, m: Manifest, read: seq<Option<Record>>)
    requires WellLaid(c, limits, input, body, m, read)
    ensures Visit(c, input, limits) == Accepted(c, m, read)
  {
    CoverMeans(c, limits, input, 0, body);
    LaidBodyIsVisited(c, limits, ReadCover(input).value, body, m, read);
  }

  /**
   The reader accepts an input exactly when it begins with a well-laid drop, and then it delivers
   the records of that layout and counts the frames it skipped.
   */
  lemma AcceptedIffWellLaid(c: Codec, limits: Limits, input: Bytes)
    ensures Visit(c, input, limits).outcome.Ok?
            <==> exists body, m, read :: WellLaid(c, limits, input, body, m, read)
    ensures forall body, m, read :: WellLaid(c, limits, input, body, m, read) ==>
              Visit(c, input, limits) == Accepted(c, m, read)
  {
    forall body, m, read | WellLaid(c, limits, input, body, m, read)
      ensures Visit(c, input, limits) == Accepted(c, m, read)
    {
      LaidIsAccepted(c, limits, input, body, m, read);
    }
    if Visit(c, input, limits).outcome.Ok? {
      var cover := ReadCover(input).value;
      var m, read := VisitedBodyIsLaid(c, limits, cover);
      CoverMeans(c, limits, input, 0, cover.rest[..cover.protectedBytes]);
      assert WellLaid(c, limits, input, cover.rest[..cover.protectedBytes], m, read);
    }
  }

  lemma {:induction false} FramesDoNotCompareDigests(c: Codec, limits: Limits, entries: seq<Entry>, i: nat,
                                                     protectedBytes: nat, cur: Cursor)
    requires i <= |entries|
    ensures ReadFrames(c, limits, entries, i, protectedBytes, cur).outcome != Err(FalseBodyDigest)
    decreases |entries| - i
  {
    if i < |entries| {
      var frame := ReadFrame(c, limits, entries[i], i, protectedBytes, cur);
      if frame.Ok? { FramesDoNotCompareDigests(c, limits, entries, i + 1, protectedBytes, frame.value.after); }
    }
  }

  /** What the reader hashed is what the body holds up to where it ended. */
  lemma HashedIsBody(c: Codec, limits: Limits, protectedBytes: nat, rest: Bytes, head: ManifestRead, end: Cursor)
    requires ReadManifest(c, limits, protectedBytes, Cursor([], rest)) == Ok(head)
    requires ReadFrames(c, limits, head.manifest.records, 0, protectedBytes, head.after).outcome == Ok(end)
    ensures |end.hashed| <= |rest| && end.hashed == rest[..|end.hashed|]
  {
    ManifestUses(c, limits, protectedBytes, rest);
    var n := 8 + FromLittleEndian(rest[..8]);
    ReadIsLaid(c, limits, head.manifest.records, 0, protectedBytes, head.after);
    var used, read :| EndsAfter(c, limits, head.manifest.records, 0, head.after, end, used, read);
    CutBody(rest, n, used);
  }

  /** Only the cover's digest is wrong: with the right one the same bytes would be accepted. */
  lemma FalseDigestMeans(c: Codec, limits: Limits, cover: CoverRead)
    ensures VisitBody(c, limits, cover).outcome == Err(FalseBodyDigest)
            <==> && cover.protectedBytes <= |cover.rest|
                 && var digest := c.hash(cover.rest[..cover.protectedBytes]);
                    cover.digest != digest && VisitBody(c, limits, cover.(digest := digest)).outcome.Ok?
  {
    var head := ReadManifest(c, limits, cover.protectedBytes, Cursor([], cover.rest));
    if head.Ok? {
      var entries, after := head.value.manifest.records, head.value.after;
      FramesDoNotCompareDigests(c, limits, entries, 0, cover.protectedBytes, after);
      var run := ReadFrames(c, limits, entries, 0, cover.protectedBytes, after);
      if run.outcome.Ok? { HashedIsBody(c, limits, cover.protectedBytes, cover.rest, head.value, run.outcome.value); }
    }
  }

  // ---------- Private drops ----------

  /** The sealed bytes lie under the cover of the suite, which recovers the body from them. */
  ghost predicate SealedLaid(c: Codec, p: Protector, limits: Limits, input: Bytes, sealed: Bytes, body: Bytes) {
    && CoverLaid(c, limits, input, p.suite, sealed) && p.suite != 0
    && p.unprotect(sealed, input[..12], limits.maxProtectedBytes) == Some(body)
    && |body| <= limits.maxProtectedBytes
  }

  /** What binds the protection is the first twelve bytes of the cover. */
  lemma AadIsTheCover(c: Codec, limits: Limits, input: Bytes, suite: U16, body: Bytes)
    requires CoverLaid(c, limits, input, suite, body)
    ensures input[..12] == ProtectionAad(suite)
  {
    assert LittleEndian(VERSION, 2) == [1, 0] by {
      assert LittleEndian(0, 1) == [0] + LittleEndian(0, 0);
    }
    assert LittleEndian(suite, 2) == [suite % 256] + LittleEndian(suite / 256, 1);
    assert LittleEndian(suite / 256, 1) == [suite / 256 % 256] + LittleEndian(suite / 256 / 256, 0);
    var lo, hi := input[10] as int, input[11] as int;
    assert suite % 256 == lo && suite / 256 == hi;
    assert input[..12] == input[..8] + [input[8], input[9], input[10], input[11]];
  }

  lemma SealedIsOpened(c: Codec, p: Protector, limits: Limits, input: Bytes, sealed: Bytes, body: Bytes)
    requires SealedLaid(c, p, limits, input, sealed, body)
    ensures Unsealed(c, p, input, limits) == Ok(Cover(0, |body|, c.hash(body)) + body)
  {
    CoverMeans(c, limits, input, p.suite, sealed);
    AadIsTheCover(c, limits, input, p.suite, sealed);
  }

  lemma OpenedIsSealed(c: Codec, p: Protector, limits: Limits, input: Bytes) returns (sealed: Bytes, body: Bytes)
    requires Unsealed(c, p, input, limits).Ok?
    ensures SealedLaid(c, p, limits, input, sealed, body)
  {
    var cover := ReadCover(input).value;
    sealed := cover.rest[..cover.protectedBytes];
    CoverMeans(c, limits, input, p.suite, sealed);
    AadIsTheCover(c, limits, input, p.suite, sealed);
    body := p.unprotect(sealed, ProtectionAad(p.suite), limits.maxProtectedBytes).value;
  }

  /** The recovered body, in the form a plain drop has. */
  ghost predicate PrivatelyLaid(c: Codec, p: Protector, limits: Limits, input: Bytes, m: Manifest,
                                read: seq<Option<Record>>)
  {
    exists sealed, body :: SealedLaid(c, p, limits, input, sealed, body) && BodyLaid(c, limits, body, m, read)
  }

  lemma RecoveredCover(c: Codec, limits: Limits, body: Bytes)
    requires |body| <= limits.maxProtectedBytes && |c.hash(body)| == 32
    ensures ReadCover(Cover(0, |body|, c.hash(body)) + body) == Ok(CoverRead(0, |body|, c.hash(body), body))
  {
    CoverRoundTrip(0, |body|, c.hash(body), body);
  }

  /**
   A private drop is accepted exactly when the suite recovers a well-laid body from bytes laid out
   under its cover, and then it delivers the records of that layout.
   */
  lemma PrivateAcceptedIffLaid(c: Codec, p: Protector, limits: Limits, input: Bytes)
    requires forall b :: |c.hash(b)| == 32
    ensures VisitProtected(c, p, input, limits).outcome.Ok?
            <==> exists m, read :: PrivatelyLaid(c, p, limits, input, m, read)
    ensures forall m, read :: PrivatelyLaid(c, p, limits, input, m, read) ==>
              VisitProtected(c, p, input, limits) == Accepted(c, m, read)
  {
    forall m, read | PrivatelyLaid(c, p, limits, input, m, read)
      ensures VisitProtected(c, p, input, limits) == Accepted(c, m, read)
    {
      var sealed, body :| SealedLaid(c, p, limits, input, sealed, body) && BodyLaid(c, limits, body, m, read);
      SealedIsOpened(c, p, limits, input, sealed, body);
      RecoveredCover(c, limits, body);
      assert body[..|body|] == body;
      LaidBodyIsVisited(c, limits, CoverRead(0, |body|, c.hash(body), body), body, m, read);
    }
    if VisitProtected(c, p, input, limits).outcome.Ok? {
      var sealed, body := OpenedIsSealed(c, p, limits, input);
      SealedIsOpened(c, p, limits, input, sealed, body);
      RecoveredCover(c, limits, body);
      var m, read := VisitedBodyIsLaid(c, limits, CoverRead(0, |body|, c.hash(body), body));
      assert body[..|body|] == body;
      assert PrivatelyLaid(c, p, limits, input, m, read);
    }
  }
}

/**
 What the drop framing guarantees: a written drop reads back as the same records under the same
 limits, no strict prefix of an accepted drop is accepted, the identifier pins the records, and a
 lawful protection suite changes none of it.
 */
module DropTheorems {
  import opened Wrappers
  import opened Drop

  // ---------- Round trip ----------

  lemma {:induction false} WithinLimit(entries: seq<Entry>, maximum: nat, i: nat)
    requires Oversized(entries, maximum).None? && i < |entries|
    ensures entries[i].byteLen <= maximum
  {
    if i > 0 {
      WithinLimit(entries[1..], maximum, i - 1);
      assert entries[i] == entries[1..][i - 1];
    }
  }

  lemma HeaderRoundTrip(e: Entry)
    requires e.byteLen <= U64_MAX
    ensures HeaderMatches(FrameHeader(e), e)
  {
    var flag := if e.critical then 1 else 0;
    FieldsRoundTrip(e.kind);
    FieldsRoundTrip(flag);
    FieldsRoundTrip(e.byteLen);
    var header := FrameHeader(e);
    assert header[..2] == LittleEndian(e.kind, 2);
    assert header[2..4] == LittleEndian(flag, 2);
    assert header[4..] == LittleEndian(e.byteLen, 8);
  }

  /** Taking exactly the leading part of what is unread. */
  lemma TakeFront(hashed: Bytes, front: Bytes, tail: Bytes)
    ensures Take(Cursor(hashed, front + tail), |front|) == Ok(Taken(front, Cursor(hashed + front, tail)))
  {
    assert (front + tail)[..|front|] == front && (front + tail)[|front|..] == tail;
  }

  lemma FrameRoundTrip(c: Codec, limits: Limits, r: Record, index: nat, protectedBytes: nat, hashed: Bytes, tail: Bytes)
    requires Lawful(c) && EntryFor(c, r).byteLen <= limits.maxRecordBytes
    requires |hashed| + FRAME_HEADER_LEN + |c.recordBytes(r)| <= protectedBytes
    ensures var frame := FrameHeader(EntryFor(c, r)) + c.recordBytes(r);
            ReadFrame(c, limits, EntryFor(c, r), index, protectedBytes, Cursor(hashed, frame + tail))
            == Ok(FrameRead(Some(r), Cursor(hashed + frame, tail)))
  {
    var e, bytes := EntryFor(c, r), c.recordBytes(r);
    var header := FrameHeader(e);
    assert (header + bytes) + tail == header + (bytes + tail);
    TakeFront(hashed, header, bytes + tail);
    HeaderRoundTrip(e);
    TakeFront(hashed + header, bytes, tail);
    assert (hashed + header) + bytes == hashed + (header + bytes);
    assert c.readRecord(bytes) == Some(r);
  }

  /** One frame read, then the rest: the whole run, in terms of the bytes alone. */
  lemma FirstFrame(c: Codec, limits: Limits, entries: seq<Entry>, records: seq<Record>, i: nat, protectedBytes: nat,
                   hashed: Bytes, frame: Bytes, tail: Bytes)
    requires i < |records| == |entries|
    requires ReadFrame(c, limits, entries[i], i, protectedBytes, Cursor(hashed, frame + tail))
             == Ok(FrameRead(Some(records[i]), Cursor(hashed + frame, tail)))
    requires ReadFrames(c, limits, entries, i + 1, protectedBytes, Cursor(hashed + frame, tail))
             == Run(records[i + 1..], 0, Ok(Cursor((hashed + frame) + tail, [])))
    ensures ReadFrames(c, limits, entries, i, protectedBytes, Cursor(hashed, frame + tail))
            == Run(records[i..], 0, Ok(Cursor(hashed + (frame + tail), [])))
  {
    Joined(hashed, frame, tail);
    HeadAndRest(records, i);
  }

  lemma Joined(a: Bytes, b: Bytes, d: Bytes)
    ensures (a + b) + d == a + (b + d)
  {
  }

  lemma HeadAndRest(records: seq<Record>, i: nat)
    requires i < |records|
    ensures [records[i]] + records[i + 1..] == records[i..]
  {
  }

  lemma FramesUnfold(c: Codec, records: seq<Record>, i: nat)
    requires i < |records|
    ensures Frames(c, records[i..])
            == FrameHeader(EntryFor(c, records[i])) + c.recordBytes(records[i]) + Frames(c, records[i + 1..])
  {
    assert records[i..][0] == records[i] && records[i..][1..] == records[i + 1..];
  }

  /** Reading back the frames from one position on. */
  ghost predicate ReadsBack(c: Codec, limits: Limits, records: seq<Record>, i: nat, protectedBytes: nat, hashed: Bytes)
    requires i <= |records|
  {
    ReadFrames(c, limits, EntriesFor(c, records), i, protectedBytes, Cursor(hashed, Frames(c, records[i..])))
    == Run(records[i..], 0, Ok(Cursor(hashed + Frames(c, records[i..]), [])))
  }

  lemma FramesRoundTripStep(c: Codec, limits: Limits, records: seq<Record>, i: nat, protectedBytes: nat, hashed: Bytes)
    requires Lawful(c) && i < |records| && EntryFor(c, records[i]).byteLen <= limits.maxRecordBytes
    requires |hashed| + |Frames(c, records[i..])| <= protectedBytes
    requires ReadsBack(c, limits, records, i + 1, protectedBytes,
                       hashed + (FrameHeader(EntryFor(c, records[i])) + c.recordBytes(records[i])))
    ensures ReadsBack(c, limits, records, i, protectedBytes, hashed)
  {
    var frame, tail := FrameHeader(EntryFor(c, records[i])) + c.recordBytes(records[i]), Frames(c, records[i + 1..]);
    FramesUnfold(c, records, i);
    FrameRoundTrip(c, limits, records[i], i, protectedBytes, hashed, tail);
    FirstFrame(c, limits, EntriesFor(c, records), records, i, protectedBytes, hashed, frame, tail);
  }

  lemma {:induction false} FramesRoundTrip(c: Codec, limits: Limits, records: seq<Record>, i: nat,
      protectedBytes: nat, hashed: Bytes)
    requires Lawful(c) && i <= |records|
    requires Oversized(EntriesFor(c, records), limits.maxRecordBytes).None?
    requires |hashed| + |Frames(c, records[i..])| <= protectedBytes
    ensures ReadsBack(c, limits, records, i, protectedBytes, hashed)
    decreases |records| - i
  {
    if i == |records| {
      assert hashed + [] == hashed;
    } else {
      FramesUnfold(c, records, i);
      WithinLimit(EntriesFor(c, records), limits.maxRecordBytes, i);
      FramesRoundTrip(c, limits, records, i + 1, protectedBytes,
                      hashed + (FrameHeader(EntryFor(c, records[i])) + c.recordBytes(records[i])));
      FramesRoundTripStep(c, limits, records, i, protectedBytes, hashed);
    }
  }

  lemma CoverParts(magic: Bytes, version: Bytes, suite: Bytes, length: Bytes, digest: Bytes, body: Bytes)
    requires |magic| == 8 && |version| == 2 && |suite| == 2 && |length| == 8 && |digest| == 32
    ensures var input := magic + version + suite + length + digest + body;
            && input[..8] == magic && input[8..10] == version && input[10..12] == suite
            && input[12..20] == length && input[20..52] == digest && input[52..] == body
  {
  }

  lemma CoverRoundTrip(suite: U16, length: nat, digest: Bytes, body: Bytes)
    requires length <= U64_MAX && |digest| == 32
    ensures ReadCover(Cover(suite, length, digest) + body) == Ok(CoverRead(suite, length, digest, body))
  {
    var input := Cover(suite, length, digest) + body;
    FieldsRoundTrip(VERSION);
    FieldsRoundTrip(suite);
    FieldsRoundTrip(length);
    CoverParts(MAGIC, LittleEndian(VERSION, 2), LittleEndian(suite, 2), LittleEndian(length, 8), digest, body);
  }

  lemma ManifestRoundTrip(c: Codec, limits: Limits, m: Manifest, protectedBytes: nat, frames: Bytes)
    requires Lawful(c) && m.version == VERSION && |m.records| <= limits.maxRecords
    requires |c.manifestBytes(m)| <= limits.maxManifestBytes && 8 + |c.manifestBytes(m)| <= protectedBytes
    ensures var front := LittleEndian(|c.manifestBytes(m)|, 8) + c.manifestBytes(m);
            ReadManifest(c, limits, protectedBytes, Cursor([], front + frames))
                == Ok(ManifestRead(m, Cursor(front, frames)))
  {
    var bytes := c.manifestBytes(m);
    var length := LittleEndian(|bytes|, 8);
    assert (length + bytes) + frames == length + (bytes + frames);
    assert [] + length == length;
    TakeFront([], length, bytes + frames);
    FieldsRoundTrip(|bytes|);
    TakeFront(length, bytes, frames);
  }

  lemma BodyRoundTrip(c: Codec, limits: Limits, records: seq<Record>)
    requires Lawful(c) && Written(c, records, limits).Ok?
    ensures var body := Body(c, records);
            var id := IdOf(c, Manifest(VERSION, EntriesFor(c, records)));
            VisitBody(c, limits, CoverRead(PLAIN_SUITE, |body|, c.hash(body), body))
            == Visited(records, Ok(Report(id, |records|, |records|, 0)))
  {
    var m := Manifest(VERSION, EntriesFor(c, records));
    var body := Body(c, records);
    var front := LittleEndian(|c.manifestBytes(m)|, 8) + c.manifestBytes(m);
    ManifestRoundTrip(c, limits, m, |body|, Frames(c, records));
    assert records[0..] == records;
    FramesRoundTrip(c, limits, records, 0, |body|, front);
  }

  /** A written drop, read under the same limits, gives the same records, order and identifier. */
  lemma PlainRoundTrip(c: Codec, records: seq<Record>, limits: Limits)
    requires Lawful(c)
    ensures var w := Written(c, records, limits);
            w.Ok? ==> && Visit(c, w.value.1, limits)
                         == Visited(records, Ok(Report(w.value.0.id, |records|, |records|, 0)))
                      && w.value.0 == Receipt(w.value.0.id, |w.value.1| - 52, |w.value.1|, |records|)
  {
    if Written(c, records, limits).Ok? {
      var body := Body(c, records);
      CoverRoundTrip(PLAIN_SUITE, |body|, c.hash(body), body);
      BodyRoundTrip(c, limits, records);
    }
  }

  lemma {:induction false} OversizedExactly(entries: seq<Entry>, maximum: nat)
    ensures Oversized(entries, maximum).None? <==> forall i :: 0 <= i < |entries| ==> entries[i].byteLen <= maximum
  {
    if entries != [] {
      OversizedExactly(entries[1..], maximum);
      assert forall i :: 0 < i < |entries| ==> entries[i] == entries[1..][i - 1];
    }
  }

  /** A drop is written exactly when the record list and every part of it is within the limits. */
  lemma WrittenIffWithinLimits(c: Codec, records: seq<Record>, limits: Limits)
    ensures Written(c, records, limits).Ok?
            <==> && |records| <= limits.maxRecords
                 && (forall i :: 0 <= i < |records| ==> |c.recordBytes(records[i])| <= limits.maxRecordBytes)
                 && |c.manifestBytes(Manifest(VERSION, EntriesFor(c, records)))| <= limits.maxManifestBytes
                 && |Body(c, records)| <= limits.maxProtectedBytes
  {
    var entries := EntriesFor(c, records);
    OversizedExactly(entries, limits.maxRecordBytes);
    assert forall i :: 0 <= i < |records| ==> entries[i].byteLen == |c.recordBytes(records[i])|;
  }

  // ---------- Prefixes ----------

  function Cut(cur: Cursor, k: nat): Cursor
    requires k <= |cur.rest|
  {
    Cursor(cur.hashed, cur.rest[..k])
  }

  /** Taking from a shortened input: the same bytes while they are there, truncation after. */
  lemma TakeCut(cur: Cursor, n: nat, k: nat)
    requires k <= |cur.rest| && n <= |cur.rest|
    ensures k < n ==> Take(Cut(cur, k), n) == Err(Truncated)
    ensures n <= k ==> Take(Cut(cur, k), n) == Ok(Taken(cur.rest[..n], Cut(Take(cur, n).value.after, k - n)))
  {
    if n <= k {
      assert cur.rest[..k][..n] == cur.rest[..n];
      assert cur.rest[..k][n..] == cur.rest[n..][..k - n];
    }
  }

  /** The bytes a cursor advanced by. */
  ghost predicate Advanced(before: Cursor, after: Cursor, used: nat) {
    used <= |before.rest| && after == Cursor(before.hashed + before.rest[..used], before.rest[used..])
  }

  lemma AdvancedTwice(a: Cursor, b: Cursor, d: Cursor, m: nat, n: nat)
    requires Advanced(a, b, m) && Advanced(b, d, n)
    ensures Advanced(a, d, m + n)
  {
    assert a.rest[..m] + a.rest[m..][..n] == a.rest[..m + n];
    assert (a.hashed + a.rest[..m]) + a.rest[m..][..n] == a.hashed + (a.rest[..m] + a.rest[m..][..n]);
    assert a.rest[m..][n..] == a.rest[m + n..];
  }

  lemma FrameCut(c: Codec, limits: Limits, e: Entry, index: nat, protectedBytes: nat, cur: Cursor, k: nat)
    requires k <= |cur.rest| && ReadFrame(c, limits, e, index, protectedBytes, cur).Ok?
    ensures var frame := ReadFrame(c, limits, e, index, protectedBytes, cur).value;
            var used := FRAME_HEADER_LEN + e.byteLen;
            && Advanced(cur, frame.after, used)
            && (k < used ==> ReadFrame(c, limits, e, index, protectedBytes, Cut(cur, k)) == Err(Truncated))
            && (used <= k ==> ReadFrame(c, limits, e, index, protectedBytes, Cut(cur, k))
                              == Ok(FrameRead(frame.record, Cut(frame.after, k - used))))
  {
    var header := Take(cur, FRAME_HEADER_LEN).value;
    TakeCut(cur, FRAME_HEADER_LEN, k);
    if FRAME_HEADER_LEN <= k {
      TakeCut(header.after, e.byteLen, k - FRAME_HEADER_LEN);
    }
    AdvancedTwice(cur, header.after, Take(header.after, e.byteLen).value.after, FRAME_HEADER_LEN, e.byteLen);
  }

  /** A run that succeeds on the whole input, against the run on its first `k` bytes. */
  ghost predicate CutRuns(cur: Cursor, run: Run, short: Run, k: nat)
    requires run.outcome.Ok?
  {
    var end := run.outcome.value;
    var used := |cur.rest| - |end.rest|;
    && 0 <= used && Advanced(cur, end, used)
    && (k < used ==> short.outcome == Err(Truncated))
    && (used <= k <= |cur.rest| ==> short == run.(outcome := Ok(Cut(end, k - used))))
  }

  lemma CutRunsStep(cur: Cursor, after: Cursor, used: nat, record: Option<Record>, run: Run, short: Run, k: nat)
    requires Advanced(cur, after, used) && used <= k <= |cur.rest|
    requires run.outcome.Ok? && CutRuns(after, run, short, k - used)
    ensures CutRuns(cur, Prepend(Delivered(record), Skipped(record), run),
                    Prepend(Delivered(record), Skipped(record), short), k)
  {
    var end := run.outcome.value;
    AdvancedTwice(cur, after, end, used, |after.rest| - |end.rest|);
  }

  lemma CutRunsShort(cur: Cursor, after: Cursor, used: nat, record: Option<Record>, run: Run, short: Run, k: nat)
    requires Advanced(cur, after, used) && k < used && short.outcome == Err(Truncated)
    requires run.outcome.Ok? && CutRuns(after, run, run, |after.rest|)
    ensures CutRuns(cur, Prepend(Delivered(record), Skipped(record), run), short, k)
  {
    var end := run.outcome.value;
    AdvancedTwice(cur, after, end, used, |after.rest| - |end.rest|);
  }

  lemma FramesPrepend(c: Codec, limits: Limits, entries: seq<Entry>, i: nat, protectedBytes: nat, cur: Cursor,
                      frame: FrameRead)
    requires i < |entries| && ReadFrame(c, limits, entries[i], i, protectedBytes, cur) == Ok(frame)
    ensures ReadFrames(c, limits, entries, i, protectedBytes, cur)
            == Prepend(Delivered(frame.record), Skipped(frame.record),
                       ReadFrames(c, limits, entries, i + 1, protectedBytes, frame.after))
  {
  }

  lemma FramesStop(c: Codec, limits: Limits, entries: seq<Entry>, i: nat, protectedBytes: nat, cur: Cursor)
    requires i < |entries| && ReadFrame(c, limits, entries[i], i, protectedBytes, cur) == Err(Truncated)
    ensures ReadFrames(c, limits, entries, i, protectedBytes, cur).outcome == Err(Truncated)
  {
  }

  /** The cut falls after this frame: the shortened run goes on with what is left of it. */
  lemma CutAfterFrame(c: Codec, limits: Limits, entries: seq<Entry>, i: nat, protectedBytes: nat,
                      cur: Cursor, frame: FrameRead, used: nat, k: nat)
    requires i < |entries| && used <= k <= |cur.rest| && Advanced(cur, frame.after, used)
    requires ReadFrame(c, limits, entries[i], i, protectedBytes, cur) == Ok(frame)
    requires ReadFrame(c, limits, entries[i], i, protectedBytes, Cut(cur, k))
             == Ok(FrameRead(frame.record, Cut(frame.after, k - used)))
    requires ReadFrames(c, limits, entries, i + 1, protectedBytes, frame.after).outcome.Ok?
    requires CutRuns(frame.after, ReadFrames(c, limits, entries, i + 1, protectedBytes, frame.after),
                     ReadFrames(c, limits, entries, i + 1, protectedBytes, Cut(frame.after, k - used)), k - used)
    ensures ReadFrames(c, limits, entries, i, protectedBytes, cur).outcome.Ok?
    ensures CutRuns(cur, ReadFrames(c, limits, entries, i, protectedBytes, cur),
                    ReadFrames(c, limits, entries, i, protectedBytes, Cut(cur, k)), k)
  {
    FramesPrepend(c, limits, entries, i, protectedBytes, cur, frame);
    FramesPrepend(c, limits, entries, i, protectedBytes, Cut(cur, k),
                  FrameRead(frame.record, Cut(frame.after, k - used)));
    CutRunsStep(cur, frame.after, used, frame.record,
                ReadFrames(c, limits, entries, i + 1, protectedBytes, frame.after),
                ReadFrames(c, limits, entries, i + 1, protectedBytes, Cut(frame.after, k - used)), k);
  }

  /** The cut falls in this frame: the shortened run ends there. */
  lemma CutInFrame(c: Codec, limits: Limits, entries: seq<Entry>, i: nat, protectedBytes: nat,
                   cur: Cursor, frame: FrameRead, used: nat, k: nat)
    requires i < |entries| && k < used && k <= |cur.rest| && Advanced(cur, frame.after, used)
    requires ReadFrame(c, limits, entries[i], i, protectedBytes, cur) == Ok(frame)
    requires ReadFrame(c, limits, entries[i], i, protectedBytes, Cut(cur, k)) == Err(Truncated)
    requires ReadFrames(c, limits, entries, i + 1, protectedBytes, frame.after).outcome.Ok?
    requires CutRuns(frame.after, ReadFrames(c, limits, entries, i + 1, protectedBytes, frame.after),
                     ReadFrames(c, limits, entries, i + 1, protectedBytes, frame.after), |frame.after.rest|)
    ensures ReadFrames(c, limits, entries, i, protectedBytes, cur).outcome.Ok?
    ensures CutRuns(cur, ReadFrames(c, limits, entries, i, protectedBytes, cur),
                    ReadFrames(c, limits, entries, i, protectedBytes, Cut(cur, k)), k)
  {
    FramesPrepend(c, limits, entries, i, protectedBytes, cur, frame);
    FramesStop(c, limits, entries, i, protectedBytes, Cut(cur, k));
    CutRunsShort(cur, frame.after, used, frame.record,
                 ReadFrames(c, limits, entries, i + 1, protectedBytes, frame.after),
                 ReadFrames(c, limits, entries, i, protectedBytes, Cut(cur, k)), k);
  }

  lemma {:induction false} FramesCut(c: Codec, limits: Limits, entries: seq<Entry>, i: nat, protectedBytes: nat,
                                     cur: Cursor, k: nat)
    requires i <= |entries| && k <= |cur.rest|
    requires ReadFrames(c, limits, entries, i, protectedBytes, cur).outcome.Ok?
    ensures CutRuns(cur, ReadFrames(c, limits, entries, i, protectedBytes, cur),
                    ReadFrames(c, limits, entries, i, protectedBytes, Cut(cur, k)), k)
    decreases |entries| - i
  {
    if i == |entries| {
      assert cur.hashed + cur.rest[..0] == cur.hashed;
    } else {
      var frame := ReadFrame(c, limits, entries[i], i, protectedBytes, cur).value;
      var used := FRAME_HEADER_LEN + entries[i].byteLen;
      FrameCut(c, limits, entries[i], i, protectedBytes, cur, k);
      if used <= k {
        FramesCut(c, limits, entries, i + 1, protectedBytes, frame.after, k - used);
        CutAfterFrame(c, limits, entries, i, protectedBytes, cur, frame, used, k);
      } else {
        FramesCut(c, limits, entries, i + 1, protectedBytes, frame.after, |frame.after.rest|);
        assert Cut(frame.after, |frame.after.rest|) == frame.after;
        CutInFrame(c, limits, entries, i, protectedBytes, cur, frame, used, k);
      }
    }
  }

  lemma ManifestCut(c: Codec, limits: Limits, protectedBytes: nat, cur: Cursor, k: nat)
    requires k <= |cur.rest| && ReadManifest(c, limits, protectedBytes, cur).Ok?
    ensures var head := ReadManifest(c, limits, protectedBytes, cur).value;
            var used := |cur.rest| - |head.after.rest|;
            && 0 <= used && Advanced(cur, head.after, used)
            && (k < used ==> ReadManifest(c, limits, protectedBytes, Cut(cur, k)) == Err(Truncated))
            && (used <= k ==> ReadManifest(c, limits, protectedBytes, Cut(cur, k))
                              == Ok(ManifestRead(head.manifest, Cut(head.after, k - used))))
  {
    var length := Take(cur, 8).value;
    var manifestLen := FromLittleEndian(length.bytes);
    TakeCut(cur, 8, k);
    if 8 <= k { TakeCut(length.after, manifestLen, k - 8); }
    AdvancedTwice(cur, length.after, Take(length.after, manifestLen).value.after, 8, manifestLen);
  }

  /** Where an accepted drop ends. */
  function DropLen(input: Bytes): nat {
    var cover := ReadCover(input);
    if cover.Ok? then COVER_LEN + cover.value.protectedBytes else 0
  }

  /** An accepted body: its manifest, its frames, and where they leave off. */
  lemma BodyParts(c: Codec, limits: Limits, cover: CoverRead) returns (head: ManifestRead, run: Run)
    requires VisitBody(c, limits, cover).outcome.Ok?
    ensures cover.protectedBytes <= limits.maxProtectedBytes
    ensures ReadManifest(c, limits, cover.protectedBytes, Cursor([], cover.rest)) == Ok(head)
    ensures ReadFrames(c, limits, head.manifest.records, 0, cover.protectedBytes, head.after) == run && run.outcome.Ok?
    ensures |run.outcome.value.hashed| == cover.protectedBytes
    ensures VisitBody(c, limits, cover) == Conclude(c, cover, head.manifest, run)
  {
    head := ReadManifest(c, limits, cover.protectedBytes, Cursor([], cover.rest)).value;
    run := ReadFrames(c, limits, head.manifest.records, 0, cover.protectedBytes, head.after);
  }

  /** Two stretches that together hash to a known length. */
  lemma Extent(start: Cursor, mid: Cursor, end: Cursor, m: nat, n: nat, total: nat)
    requires start.hashed == [] && Advanced(start, mid, m) && Advanced(mid, end, n) && |end.hashed| == total
    ensures m + n == total <= |start.rest|
  {
    AdvancedTwice(start, mid, end, m, n);
  }

  /** The manifest and the frames fill exactly the bytes the cover declares. */
  lemma BodyExtent(c: Codec, limits: Limits, cover: CoverRead, head: ManifestRead, run: Run) returns (used: nat)
    requires ReadManifest(c, limits, cover.protectedBytes, Cursor([], cover.rest)) == Ok(head)
    requires ReadFrames(c, limits, head.manifest.records, 0, cover.protectedBytes, head.after) == run && run.outcome.Ok?
    requires |run.outcome.value.hashed| == cover.protectedBytes
    ensures used == |cover.rest| - |head.after.rest|
    ensures |head.after.rest| - |run.outcome.value.rest| == cover.protectedBytes - used
    ensures used <= cover.protectedBytes <= |cover.rest|
  {
    var start := Cursor([], cover.rest);
    used := HeadAdvances(c, limits, cover.protectedBytes, start, head);
    var n := FramesAdvance(c, limits, head.manifest.records, cover.protectedBytes, head.after, run);
    Extent(start, head.after, run.outcome.value, used, n, cover.protectedBytes);
  }

  lemma HeadAdvances(c: Codec, limits: Limits, protectedBytes: nat, cur: Cursor, head: ManifestRead) returns (used: nat)
    requires ReadManifest(c, limits, protectedBytes, cur) == Ok(head)
    ensures used == |cur.rest| - |head.after.rest| && Advanced(cur, head.after, used)
  {
    ManifestCut(c, limits, protectedBytes, cur, 0);
    used := |cur.rest| - |head.after.rest|;
  }

  lemma FramesAdvance(c: Codec, limits: Limits, entries: seq<Entry>, protectedBytes: nat, cur: Cursor, run: Run)
      returns (used: nat)
    requires ReadFrames(c, limits, entries, 0, protectedBytes, cur) == run && run.outcome.Ok?
    ensures used == |cur.rest| - |run.outcome.value.rest| && Advanced(cur, run.outcome.value, used)
  {
    FramesCut(c, limits, entries, 0, protectedBytes, cur, 0);
    used := |cur.rest| - |run.outcome.value.rest|;
  }

  lemma VisitStops(c: Codec, limits: Limits, cover: CoverRead)
    requires cover.protectedBytes <= limits.maxProtectedBytes
    requires ReadManifest(c, limits, cover.protectedBytes, Cursor([], cover.rest)) == Err(Truncated)
    ensures VisitBody(c, limits, cover).outcome == Err(Truncated)
  {
  }

  lemma VisitGoesOn(c: Codec, limits: Limits, cover: CoverRead, head: ManifestRead)
    requires cover.protectedBytes <= limits.maxProtectedBytes
    requires ReadManifest(c, limits, cover.protectedBytes, Cursor([], cover.rest)) == Ok(head)
    ensures VisitBody(c, limits, cover)
            == Conclude(c, cover, head.manifest,
                ReadFrames(c, limits, head.manifest.records, 0, cover.protectedBytes, head.after))
  {
  }

  /** Nothing the last checks look at is lost by cutting bytes that were never read. */
  lemma ConcludeCut(c: Codec, cover: CoverRead, rest: Bytes, manifest: Manifest, cur: Cursor, run: Run, short: Run,
                    k: nat)
    requires run.outcome.Ok? && k <= |cur.rest| && CutRuns(cur, run, short, k)
    ensures var concluded := Conclude(c, cover.(rest := rest), manifest, short);
            && (k < |cur.rest| - |run.outcome.value.rest| ==> concluded.outcome == Err(Truncated))
            && (|cur.rest| - |run.outcome.value.rest| <= k ==> concluded == Conclude(c, cover, manifest, run))
  {
  }

  lemma FramesConclude(c: Codec, limits: Limits, cover: CoverRead, rest: Bytes, manifest: Manifest, cur: Cursor,
                       run: Run, k: nat)
    requires k <= |cur.rest| && run.outcome.Ok?
    requires ReadFrames(c, limits, manifest.records, 0, cover.protectedBytes, cur) == run
    ensures var concluded := Conclude(c, cover.(rest := rest), manifest,
                                      ReadFrames(c, limits, manifest.records, 0, cover.protectedBytes, Cut(cur, k)));
            && (k < |cur.rest| - |run.outcome.value.rest| ==> concluded.outcome == Err(Truncated))
            && (|cur.rest| - |run.outcome.value.rest| <= k ==> concluded == Conclude(c, cover, manifest, run))
  {
    FramesCut(c, limits, manifest.records, 0, cover.protectedBytes, cur, k);
    ConcludeCut(c, cover, rest, manifest, cur, run,
        ReadFrames(c, limits, manifest.records, 0, cover.protectedBytes, Cut(cur, k)), k);
  }

  /** The cut falls among the frames or after them. */
  lemma BodyCutFrames(c: Codec, limits: Limits, cover: CoverRead, head: ManifestRead, run: Run, used: nat, k: nat)
    requires used <= k <= |cover.rest| && cover.protectedBytes <= limits.maxProtectedBytes
    requires used == |cover.rest| - |head.after.rest| && run.outcome.Ok?
    requires |head.after.rest| - |run.outcome.value.rest| == cover.protectedBytes - used
    requires ReadManifest(c, limits, cover.protectedBytes, Cursor([], cover.rest[..k]))
            == Ok(ManifestRead(head.manifest, Cut(head.after, k - used)))
    requires ReadFrames(c, limits, head.manifest.records, 0, cover.protectedBytes, head.after) == run
    ensures var short := VisitBody(c, limits, cover.(rest := cover.rest[..k]));
            && (k < cover.protectedBytes ==> short.outcome == Err(Truncated))
            && (cover.protectedBytes <= k ==> short == Conclude(c, cover, head.manifest, run))
  {
    var frames := ReadFrames(c, limits, head.manifest.records, 0, cover.protectedBytes, Cut(head.after, k - used));
    assert VisitBody(c, limits, cover.(rest := cover.rest[..k]))
        == Conclude(c, cover.(rest := cover.rest[..k]), head.manifest, frames) by {
      VisitGoesOn(c, limits, cover.(rest := cover.rest[..k]), ManifestRead(head.manifest, Cut(head.after, k - used)));
    }
    FramesConclude(c, limits, cover, cover.rest[..k], head.manifest, head.after, run, k - used);
  }

  lemma BodyCut(c: Codec, limits: Limits, cover: CoverRead, k: nat)
    requires k <= |cover.rest| && VisitBody(c, limits, cover).outcome.Ok?
    ensures cover.protectedBytes <= |cover.rest|
    ensures var short := VisitBody(c, limits, cover.(rest := cover.rest[..k]));
            && (k < cover.protectedBytes ==> short.outcome == Err(Truncated))
            && (cover.protectedBytes <= k ==> short == VisitBody(c, limits, cover))
  {
    var start := Cursor([], cover.rest);
    var head, run := BodyParts(c, limits, cover);
    var used := BodyExtent(c, limits, cover, head, run);
    ManifestCut(c, limits, cover.protectedBytes, start, k);
    var shortCover := cover.(rest := cover.rest[..k]);
    if k < used {
      VisitStops(c, limits, shortCover);
    } else {
      BodyCutFrames(c, limits, cover, head, run, used, k);
    }
  }

  lemma CoverCut(input: Bytes, k: nat)
    requires k <= |input| && ReadCover(input).Ok?
    ensures k < COVER_LEN ==> ReadCover(input[..k]) == Err(Truncated)
    ensures COVER_LEN <= k ==>
              ReadCover(input[..k]) == Ok(ReadCover(input).value.(rest := ReadCover(input).value.rest[..k - COVER_LEN]))
  {
    if COVER_LEN <= k {
      var short := input[..k];
      assert short[..8] == input[..8] && short[8..10] == input[8..10] && short[10..12] == input[10..12];
      assert short[12..20] == input[12..20] && short[20..52] == input[20..52];
      assert short[52..] == input[52..][..k - COVER_LEN];
    }
  }

  /**
   Of any input the reader accepts, written by this code or not: cutting it anywhere before the
   end its cover declares gives exactly `Truncated`, and bytes past that end change nothing.
   */
  lemma PrefixesAreTruncated(c: Codec, input: Bytes, limits: Limits, k: nat)
    requires Visit(c, input, limits).outcome.Ok? && k <= |input|
    ensures DropLen(input) <= |input|
    ensures k < DropLen(input) ==> Visit(c, input[..k], limits).outcome == Err(Truncated)
    ensures DropLen(input) <= k ==> Visit(c, input[..k], limits) == Visit(c, input, limits)
  {
    var cover := ReadCover(input).value;
    CoverCut(input, k);
    BodyCut(c, limits, cover, if COVER_LEN <= k then k - COVER_LEN else 0);
  }

  // ---------- The identifier pins the records ----------

  /** No two slices of the two inputs share a hash without being equal. */
  ghost predicate CollisionFree(hash: Bytes -> Bytes, a: Bytes, b: Bytes) {
    forall i, j, k, l :: 0 <= i <= j <= |a| && 0 <= k <= l <= |b| && hash(a[i..j]) == hash(b[k..l]) ==>
        a[i..j] == b[k..l]
  }

  ghost predicate Suffix(whole: Bytes, rest: Bytes) {
    |rest| <= |whole| && rest == whole[|whole| - |rest|..]
  }

  lemma SameHashSameSlice(hash: Bytes -> Bytes, a: Bytes, b: Bytes, x: Bytes, y: Bytes, m: nat, n: nat)
    requires CollisionFree(hash, a, b) && Suffix(a, x) && Suffix(b, y)
    requires m <= |x| && n <= |y| && hash(x[..m]) == hash(y[..n])
    ensures x[..m] == y[..n]
  {
    var i, k := |a| - |x|, |b| - |y|;
    assert x[..m] == a[i..i + m] && y[..n] == b[k..k + n];
  }

  lemma SuffixDrop(whole: Bytes, rest: Bytes, n: nat)
    requires Suffix(whole, rest) && n <= |rest|
    ensures Suffix(whole, rest[n..])
  {
  }

  /** Two accepted frames under one manifest entry carry the same record. */
  lemma FrameDetermined(c: Codec, e: Entry, i: nat, l: Limits, m: Limits, p: nat, q: nat, x: Cursor, y: Cursor,
      a: Bytes, b: Bytes)
    requires CollisionFree(c.hash, a, b) && Suffix(a, x.rest) && Suffix(b, y.rest)
    requires ReadFrame(c, l, e, i, p, x).Ok? && ReadFrame(c, m, e, i, q, y).Ok?
    ensures ReadFrame(c, l, e, i, p, x).value.record == ReadFrame(c, m, e, i, q, y).value.record
    ensures Suffix(a, ReadFrame(c, l, e, i, p, x).value.after.rest)
            && Suffix(b, ReadFrame(c, m, e, i, q, y).value.after.rest)
  {
    var rest, rest' := x.rest[FRAME_HEADER_LEN..], y.rest[FRAME_HEADER_LEN..];
    SuffixDrop(a, x.rest, FRAME_HEADER_LEN);
    SuffixDrop(b, y.rest, FRAME_HEADER_LEN);
    SameHashSameSlice(c.hash, a, b, rest, rest', e.byteLen, e.byteLen);
    SuffixDrop(a, rest, e.byteLen);
    SuffixDrop(b, rest', e.byteLen);
  }

  lemma {:induction false} FramesDetermined(c: Codec, entries: seq<Entry>, i: nat, l: Limits, m: Limits, p: nat, q: nat,
                                            x: Cursor, y: Cursor, a: Bytes, b: Bytes)
    requires i <= |entries| && CollisionFree(c.hash, a, b) && Suffix(a, x.rest) && Suffix(b, y.rest)
    requires ReadFrames(c, l, entries, i, p, x).outcome.Ok? && ReadFrames(c, m, entries, i, q, y).outcome.Ok?
    ensures ReadFrames(c, l, entries, i, p, x).visited == ReadFrames(c, m, entries, i, q, y).visited
    ensures ReadFrames(c, l, entries, i, p, x).skipped == ReadFrames(c, m, entries, i, q, y).skipped
    decreases |entries| - i
  {
    if i < |entries| {
      FrameDetermined(c, entries[i], i, l, m, p, q, x, y, a, b);
      FramesDetermined(c, entries, i + 1, l, m, p, q, ReadFrame(c, l, entries[i], i, p, x).value.after,
                       ReadFrame(c, m, entries[i], i, q, y).value.after, a, b);
    }
  }

  /** The identifier is the hash of the manifest bytes that were read. */
  lemma ManifestIsSlice(c: Codec, limits: Limits, p: nat, cur: Cursor, a: Bytes)
    requires ReadManifest(c, limits, p, cur).Ok? && Suffix(a, cur.rest)
    ensures var head := ReadManifest(c, limits, p, cur).value;
            && Suffix(a, head.after.rest)
            && |cur.rest| >= 8 && Suffix(a, cur.rest[8..])
            && |c.manifestBytes(head.manifest)| <= |cur.rest[8..]|
            && c.manifestBytes(head.manifest) == cur.rest[8..][..|c.manifestBytes(head.manifest)|]
            && c.readManifest(c.manifestBytes(head.manifest)) == Some(head.manifest)
  {
    SuffixDrop(a, cur.rest, 8);
    SuffixDrop(a, cur.rest[8..], FromLittleEndian(cur.rest[..8]));
  }

  /** Equal hashes of the two manifests make them the same manifest, read at the same place of each stream. */
  lemma SameManifest(c: Codec, a: Bytes, b: Bytes, l: Limits, m: Limits, p: nat, q: nat, x: Cursor, y: Cursor)
    requires CollisionFree(c.hash, a, b) && Suffix(a, x.rest) && Suffix(b, y.rest)
    requires ReadManifest(c, l, p, x).Ok? && ReadManifest(c, m, q, y).Ok?
    requires c.hash(c.manifestBytes(ReadManifest(c, l, p, x).value.manifest))
          == c.hash(c.manifestBytes(ReadManifest(c, m, q, y).value.manifest))
    ensures ReadManifest(c, l, p, x).value.manifest == ReadManifest(c, m, q, y).value.manifest
    ensures Suffix(a, ReadManifest(c, l, p, x).value.after.rest) && Suffix(b, ReadManifest(c, m, q, y).value.after.rest)
  {
    ManifestIsSlice(c, l, p, x, a);
    ManifestIsSlice(c, m, q, y, b);
    SameHashSameSlice(c.hash, a, b, x.rest[8..], y.rest[8..],
                      |c.manifestBytes(ReadManifest(c, l, p, x).value.manifest)|,
                      |c.manifestBytes(ReadManifest(c, m, q, y).value.manifest)|);
  }

  /**
   Two accepted inputs with one identifier carry the same records in the same order, whatever the
   limits they were read under, unless the hash collides on bytes they contain.
   */
  lemma IdPinsRecords(c: Codec, a: Bytes, b: Bytes, l: Limits, m: Limits)
    requires Visit(c, a, l).outcome.Ok? && Visit(c, b, m).outcome.Ok?
    requires Visit(c, a, l).outcome.value.id == Visit(c, b, m).outcome.value.id
    requires CollisionFree(c.hash, a, b)
    ensures Visit(c, a, l) == Visit(c, b, m)
  {
    var x, y := ReadCover(a).value, ReadCover(b).value;
    var start, start' := Cursor([], x.rest), Cursor([], y.rest);
    SameManifest(c, a, b, l, m, x.protectedBytes, y.protectedBytes, start, start');
    var head := ReadManifest(c, l, x.protectedBytes, start).value;
    var head' := ReadManifest(c, m, y.protectedBytes, start').value;
    FramesDetermined(c, head.manifest.records, 0, l, m, x.protectedBytes, y.protectedBytes, head.after, head'.after,
                     a, b);
  }

  // ---------- Protected drops ----------

  /** The injected suite: protection may fail, and recovery may refuse. */
  datatype Protector = Protector(
    suite: U16,
    protect: (Bytes, Bytes) -> Option<Bytes>,
    unprotect: (Bytes, Bytes, nat) -> Option<Bytes>)

  /** What a suite owes: what it protected it recovers, within the bound it is given. */
  ghost predicate LawfulProtector(p: Protector) {
    forall plain, aad, max :: p.protect(plain, aad).Some? && |plain| <= max ==>
                                p.unprotect(p.protect(plain, aad).value, aad, max) == Some(plain)
  }

  function ProtectionAad(suite: U16): Bytes {
    MAGIC + LittleEndian(VERSION, 2) + LittleEndian(suite, 2)
  }

  function WrittenProtected(c: Codec, p: Protector, records: seq<Record>, limits: Limits)
    : Result<(Receipt, Bytes), DropError>
  {
    var plain := Written(c, records, limits);
    if p.suite == PLAIN_SUITE then Err(PlaintextProtector)
    else if plain.Err? then Err(plain.error)
    else
      var sealed := p.protect(Body(c, records), ProtectionAad(p.suite));
      if sealed.None? then Err(Protection)
      else if |sealed.value| > limits.maxProtectedBytes
      then Err(Limit("protected bytes", |sealed.value|, limits.maxProtectedBytes))
      else Ok((Receipt(plain.value.0.id, |sealed.value|, COVER_LEN + |sealed.value|, plain.value.0.recordCount),
               Cover(p.suite, |sealed.value|, c.hash(sealed.value)) + sealed.value))
  }

  /** The plain drop a private one recovers to, once the cover, its digest and the suite have all agreed. */
  function Unsealed(c: Codec, p: Protector, input: Bytes, limits: Limits): Result<Bytes, DropError> {
    var read := ReadCover(input);
    if read.Err? then Err(read.error)
    else
      var cover := read.value;
      if cover.suite != p.suite then Err(ProtectionSuiteMismatch(p.suite, cover.suite))
      else if cover.suite == PLAIN_SUITE then Err(PlaintextProtector)
      else if cover.protectedBytes > limits.maxProtectedBytes
      then Err(Limit("protected bytes", cover.protectedBytes, limits.maxProtectedBytes))
      else if cover.protectedBytes > |cover.rest| then Err(Truncated)
      else
        var sealed := cover.rest[..cover.protectedBytes];
        if c.hash(sealed) != cover.digest then Err(FalseBodyDigest)
        else
          var body := p.unprotect(sealed, ProtectionAad(p.suite), limits.maxProtectedBytes);
          if body.None? then Err(Protection)
          else if |body.value| > limits.maxProtectedBytes
      then Err(Limit("protected bytes", |body.value|, limits.maxProtectedBytes))
          else Ok(Cover(PLAIN_SUITE, |body.value|, c.hash(body.value)) + body.value)
  }

  function VisitProtected(c: Codec, p: Protector, input: Bytes, limits: Limits): Visited {
    var plain := Unsealed(c, p, input, limits);
    if plain.Err? then Visited([], Err(plain.error)) else Visit(c, plain.value, limits)
  }

  /** A private drop reads back through the suite that wrote it as the very same records and id. */
  lemma ProtectedRoundTrip(c: Codec, p: Protector, records: seq<Record>, limits: Limits)
    requires Lawful(c) && LawfulProtector(p)
    ensures var w := WrittenProtected(c, p, records, limits);
            w.Ok? ==> && VisitProtected(c, p, w.value.1, limits)
                         == Visited(records, Ok(Report(w.value.0.id, |records|, |records|, 0)))
                      && w.value.0.id == Written(c, records, limits).value.0.id
  {
    var w := WrittenProtected(c, p, records, limits);
    if w.Ok? {
      var body := Body(c, records);
      var sealed := p.protect(body, ProtectionAad(p.suite)).value;
      CoverRoundTrip(p.suite, |sealed|, c.hash(sealed), sealed);
      assert sealed[..|sealed|] == sealed;
      PlainRoundTrip(c, records, limits);
    }
  }

  /** A protected drop cut short is `Truncated` before the suite or the visitor sees a byte. */
  lemma ProtectedPrefixesAreTruncated(c: Codec, p: Protector, input: Bytes, limits: Limits, k: nat)
    requires VisitProtected(c, p, input, limits).outcome.Ok? && k <= |input|
    ensures DropLen(input) <= |input|
    ensures k < DropLen(input) ==> VisitProtected(c, p, input[..k], limits) == Visited([], Err(Truncated))
    ensures DropLen(input) <= k ==> VisitProtected(c, p, input[..k], limits) == VisitProtected(c, p, input, limits)
  {
    CoverCut(input, k);
    var cover := ReadCover(input).value;
    if DropLen(input) <= k {
      assert cover.rest[..k - COVER_LEN][..cover.protectedBytes] == cover.rest[..cover.protectedBytes];
    }
  }

  /**
   The identifier pins the records of private drops too: two that are accepted, under whatever
   suites and limits, with one identifier, deliver the same, unless the hash collides on bytes of
   the plain drops they recover to.
   */
  lemma ProtectedIdPinsRecords(c: Codec, p: Protector, q: Protector, a: Bytes, b: Bytes, l: Limits, m: Limits)
    requires VisitProtected(c, p, a, l).outcome.Ok? && VisitProtected(c, q, b, m).outcome.Ok?
    requires VisitProtected(c, p, a, l).outcome.value.id == VisitProtected(c, q, b, m).outcome.value.id
    requires CollisionFree(c.hash, Unsealed(c, p, a, l).value, Unsealed(c, q, b, m).value)
    ensures VisitProtected(c, p, a, l) == VisitProtected(c, q, b, m)
  {
    IdPinsRecords(c, Unsealed(c, p, a, l).value, Unsealed(c, q, b, m).value, l, m);
  }

  /** And across the two kinds: a plain drop and a private one with one identifier deliver the same. */
  lemma PlainAndProtectedIdPinsRecords(c: Codec, p: Protector, a: Bytes, b: Bytes, l: Limits, m: Limits)
    requires Visit(c, a, l).outcome.Ok? && VisitProtected(c, p, b, m).outcome.Ok?
    requires Visit(c, a, l).outcome.value.id == VisitProtected(c, p, b, m).outcome.value.id
    requires CollisionFree(c.hash, a, Unsealed(c, p, b, m).value)
    ensures Visit(c, a, l) == VisitProtected(c, p, b, m)
  {
    IdPinsRecords(c, a, Unsealed(c, p, b, m).value, l, m);
  }
}

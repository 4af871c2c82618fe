/**
 The native drop framing of crates/stickleback/src/drop.rs: a 52-byte cover, a canonical manifest
 and one frame per record, written and read back byte by byte under resource limits. CBOR and
 BLAKE3 are parameters: a codec value carries them, and what is needed of them is stated as a law.
 */
module Drop {
  import opened Wrappers

  type Byte = b: int | 0 <= b < 256
  type Bytes = seq<Byte>
  type U16 = x: int | 0 <= x < 0x1_0000
  type U64 = x: int | 0 <= x < 0x1_0000_0000_0000_0000

  const U64_MAX: nat := 0xFFFF_FFFF_FFFF_FFFF

  datatype EvidenceKind = CommitmentProof | CapabilityChain | CheckpointAuthorization | KeyEnvelope | DomainOperations

  datatype Record =
    | Operation(header: Bytes, inlineBody: Option<Bytes>)
    | PayloadChunk(payloadHash: Bytes, offset: U64, bytes: Bytes)
    | BlobChunk(blobHash: Bytes, offset: U64, bytes: Bytes)
    | Evidence(kind: EvidenceKind, subject: Bytes, bytes: Bytes, critical: bool)

  datatype Entry = Entry(kind: U16, critical: bool, digest: Bytes, byteLen: nat)

  datatype Manifest = Manifest(version: U16, records: seq<Entry>)

  datatype Limits = Limits(maxProtectedBytes: U64, maxManifestBytes: U64, maxRecords: U64, maxRecordBytes: U64)

  datatype Receipt = Receipt(id: Bytes, protectedBytes: nat, totalBytes: nat, recordCount: nat)

  datatype Report = Report(id: Bytes, recordCount: nat, visitedRecords: nat, skippedOptionalRecords: nat)

  datatype DropError =
    | WrongMagic
    | UnsupportedVersion(version: nat)
    | UnsupportedProtection(suite: nat)
    | PlaintextProtector
    | ProtectionSuiteMismatch(expected: nat, actual: nat)
    | Protection
    | Truncated
    | Limit(limit: string, actual: nat, maximum: nat)
    | CodecFailed
    | FalseBodyDigest
    | FalseRecord(index: nat)
    | UnknownCriticalRecord(kind: nat)
    | BodyLengthMismatch

  /** The two encodings and the hash the framing is built on. */
  datatype Codec = Codec(
    recordBytes: Record -> Bytes,
    readRecord: Bytes -> Option<Record>,
    manifestBytes: Manifest -> Bytes,
    readManifest: Bytes -> Option<Manifest>,
    hash: Bytes -> Bytes)

  ghost predicate Lawful(c: Codec) {
    && (forall r :: c.readRecord(c.recordBytes(r)) == Some(r))
    && (forall m :: c.readManifest(c.manifestBytes(m)) == Some(m))
    && (forall b :: |c.hash(b)| == 32)
  }

  const MAGIC: Bytes := [0x4D, 0x45, 0x52, 0x45, 0x44, 0x52, 0x50, 0x00]
  const VERSION: U16 := 1
  const PLAIN_SUITE: U16 := 0
  const COVER_LEN: nat := 52
  const FRAME_HEADER_LEN: nat := 12

  // ---------- Little-endian fields ----------

  function LittleEndian(n: nat, width: nat): (r: Bytes)
    ensures |r| == width
  {
    if width == 0 then [] else [n % 256] + LittleEndian(n / 256, width - 1)
  }

  function FromLittleEndian(b: Bytes): nat {
    if b == [] then 0 else b[0] + 256 * FromLittleEndian(b[1..])
  }

  function Power256(width: nat): nat {
    if width == 0 then 1 else 256 * Power256(width - 1)
  }

  lemma {:induction false} LittleEndianRoundTrip(n: nat, width: nat)
    requires n < Power256(width)
    ensures FromLittleEndian(LittleEndian(n, width)) == n
  {
    if width > 0 {
      LittleEndianRoundTrip(n / 256, width - 1);
      assert LittleEndian(n, width)[1..] == LittleEndian(n / 256, width - 1);
    }
  }

  lemma FieldsRoundTrip(n: nat)
    ensures n <= 0xFFFF ==> FromLittleEndian(LittleEndian(n, 2)) == n
    ensures n <= U64_MAX ==> FromLittleEndian(LittleEndian(n, 8)) == n
  {
    assert Power256(2) == 256 * Power256(1) && Power256(1) == 256;
    assert Power256(4) == 256 * Power256(3) && Power256(3) == 256 * Power256(2);
    assert Power256(6) == 256 * Power256(5) && Power256(5) == 256 * Power256(4);
    assert Power256(8) == 256 * Power256(7) && Power256(7) == 256 * Power256(6);
    if n <= 0xFFFF { LittleEndianRoundTrip(n, 2); }
    if n <= U64_MAX { LittleEndianRoundTrip(n, 8); }
  }

  // ---------- Writing ----------

  function Kind(r: Record): U16 {
    match r
    case Operation(_, _) => 1
    case PayloadChunk(_, _, _) => 2
    case BlobChunk(_, _, _) => 3
    case Evidence(_, _, _, _) => 4
  }

  predicate Critical(r: Record) {
    r.Evidence? && r.critical
  }

  function EntryFor(c: Codec, r: Record): Entry {
    var bytes := c.recordBytes(r);
    Entry(Kind(r), Critical(r), c.hash(bytes), |bytes|)
  }

  function EntriesFor(c: Codec, records: seq<Record>): seq<Entry> {
    seq(|records|, i requires 0 <= i < |records| => EntryFor(c, records[i]))
  }

  function FrameHeader(e: Entry): (r: Bytes)
    ensures |r| == FRAME_HEADER_LEN
  {
    LittleEndian(e.kind, 2) + LittleEndian(if e.critical then 1 else 0, 2) + LittleEndian(e.byteLen, 8)
  }

  function Frames(c: Codec, records: seq<Record>): Bytes {
    if records == [] then []
    else FrameHeader(EntryFor(c, records[0])) + c.recordBytes(records[0]) + Frames(c, records[1..])
  }

  function Body(c: Codec, records: seq<Record>): Bytes {
    var manifestBytes := c.manifestBytes(Manifest(VERSION, EntriesFor(c, records)));
    LittleEndian(|manifestBytes|, 8) + manifestBytes + Frames(c, records)
  }

  function Cover(suite: U16, length: nat, digest: Bytes): Bytes {
    MAGIC + LittleEndian(VERSION, 2) + LittleEndian(suite, 2) + LittleEndian(length, 8) + digest
  }

  /** The first record over the byte limit. */
  function Oversized(entries: seq<Entry>, maximum: nat): Option<nat> {
    if entries == [] then None
    else if entries[0].byteLen > maximum then Some(entries[0].byteLen)
    else Oversized(entries[1..], maximum)
  }

  function IdOf(c: Codec, m: Manifest): Bytes {
    c.hash(c.manifestBytes(m))
  }

  /** What the writer produces: the limits in the order they are enforced, then the whole drop. */
  function Written(c: Codec, records: seq<Record>, limits: Limits): Result<(Receipt, Bytes), DropError> {
    var manifest := Manifest(VERSION, EntriesFor(c, records));
    var manifestLen := |c.manifestBytes(manifest)|;
    var body := Body(c, records);
    var oversized := Oversized(manifest.records, limits.maxRecordBytes);
    if |records| > limits.maxRecords then Err(Limit("record count", |records|, limits.maxRecords))
    else if oversized.Some? then Err(Limit("record bytes", oversized.value, limits.maxRecordBytes))
    else if manifestLen > limits.maxManifestBytes
    then Err(Limit("manifest bytes", manifestLen, limits.maxManifestBytes))
    else if |body| > U64_MAX then Err(CodecFailed)
    else if |body| > limits.maxProtectedBytes then Err(Limit("protected bytes", |body|, limits.maxProtectedBytes))
    else Ok((Receipt(IdOf(c, manifest), |body|, COVER_LEN + |body|, |records|),
             Cover(PLAIN_SUITE, |body|, c.hash(body)) + body))
  }

  function FramesLen(entries: seq<Entry>): nat {
    if entries == [] then 0 else FRAME_HEADER_LEN + entries[0].byteLen + FramesLen(entries[1..])
  }

  lemma {:induction false} FramesLenExact(c: Codec, records: seq<Record>)
    ensures |Frames(c, records)| == FramesLen(EntriesFor(c, records))
  {
    if records != [] {
      FramesLenExact(c, records[1..]);
      assert EntriesFor(c, records)[1..] == EntriesFor(c, records[1..]);
    }
  }

  /** One encoding pass that establishes the manifest. */
  method ManifestFor(c: Codec, records: seq<Record>) returns (m: Manifest)
    ensures m == Manifest(VERSION, EntriesFor(c, records))
  {
    var entries: seq<Entry> := [];
    for i := 0 to |records|
      invariant entries == EntriesFor(c, records)[..i]
    {
      entries := entries + [EntryFor(c, records[i])];
    }
    m := Manifest(VERSION, entries);
  }

  method FirstOversized(entries: seq<Entry>, maximum: U64) returns (r: Option<nat>)
    ensures r == Oversized(entries, maximum)
  {
    for i := 0 to |entries|
      invariant Oversized(entries, maximum) == Oversized(entries[i..], maximum)
    {
      assert entries[i..][0] == entries[i] && entries[i..][1..] == entries[i + 1..];
      if entries[i].byteLen > maximum {
        return Some(entries[i].byteLen);
      }
    }
    r := None;
  }

  /** The checked sum of the body length; `None` when it leaves 64 bits. */
  method BodyLength(manifestLen: nat, entries: seq<Entry>) returns (r: Option<nat>)
    ensures r == if 8 + manifestLen + FramesLen(entries) <= U64_MAX then Some(8 + manifestLen + FramesLen(entries))
            else None
  {
    var total := 8 + manifestLen;
    for i := 0 to |entries|
      invariant total + FramesLen(entries[i..]) == 8 + manifestLen + FramesLen(entries)
      invariant total <= U64_MAX || (i == 0 && total == 8 + manifestLen)
    {
      assert entries[i..][0] == entries[i] && entries[i..][1..] == entries[i + 1..];
      if total > U64_MAX || total + FRAME_HEADER_LEN + entries[i].byteLen > U64_MAX {
        return None;
      }
      total := total + FRAME_HEADER_LEN + entries[i].byteLen;
    }
    r := if total > U64_MAX then None else Some(total);
  }

  method WriteFrames(c: Codec, records: seq<Record>, entries: seq<Entry>) returns (out: Bytes)
    requires entries == EntriesFor(c, records)
    ensures out == Frames(c, records)
  {
    out := [];
    for i := 0 to |records|
      invariant out + Frames(c, records[i..]) == Frames(c, records)
    {
      assert records[i..][0] == records[i] && records[i..][1..] == records[i + 1..];
      var frame := FrameHeader(entries[i]) + c.recordBytes(records[i]);
      assert out + (frame + Frames(c, records[i + 1..])) == (out + frame) + Frames(c, records[i + 1..]);
      out := out + frame;
    }
  }

  method WritePlainDrop(c: Codec, records: seq<Record>, limits: Limits) returns (r: Result<(Receipt, Bytes), DropError>)
    ensures r == Written(c, records, limits)
  {
    if |records| > limits.maxRecords {
      return Err(Limit("record count", |records|, limits.maxRecords));
    }
    var manifest := ManifestFor(c, records);
    var oversized := FirstOversized(manifest.records, limits.maxRecordBytes);
    if oversized.Some? {
      return Err(Limit("record bytes", oversized.value, limits.maxRecordBytes));
    }
    var manifestBytes := c.manifestBytes(manifest);
    if |manifestBytes| > limits.maxManifestBytes {
      return Err(Limit("manifest bytes", |manifestBytes|, limits.maxManifestBytes));
    }
    FramesLenExact(c, records);
    var length := BodyLength(|manifestBytes|, manifest.records);
    if length.None? {
      return Err(CodecFailed);
    }
    if length.value > limits.maxProtectedBytes {
      return Err(Limit("protected bytes", length.value, limits.maxProtectedBytes));
    }
    var frames := WriteFrames(c, records, manifest.records);
    var body := LittleEndian(|manifestBytes|, 8) + manifestBytes + frames;
    r := Ok((Receipt(IdOf(c, manifest), length.value, COVER_LEN + length.value, |records|),
             Cover(PLAIN_SUITE, length.value, c.hash(body)) + body));
  }

  // ---------- Reading ----------

  /** The body bytes read and hashed so far, and the bytes still unread. */
  datatype Cursor = Cursor(hashed: Bytes, rest: Bytes)

  datatype Taken = Taken(bytes: Bytes, after: Cursor)

  function Take(cur: Cursor, n: nat): Result<Taken, DropError> {
    if n > |cur.rest| then Err(Truncated)
    else Ok(Taken(cur.rest[..n], Cursor(cur.hashed + cur.rest[..n], cur.rest[n..])))
  }

  datatype CoverRead = CoverRead(suite: nat, protectedBytes: nat, digest: Bytes, rest: Bytes)

  function ReadCover(input: Bytes): Result<CoverRead, DropError> {
    if |input| < COVER_LEN then Err(Truncated)
    else if input[..8] != MAGIC then Err(WrongMagic)
    else if FromLittleEndian(input[8..10]) != VERSION then Err(UnsupportedVersion(FromLittleEndian(input[8..10])))
    else Ok(CoverRead(FromLittleEndian(input[10..12]), FromLittleEndian(input[12..20]), input[20..52], input[52..]))
  }

  datatype FrameRead = FrameRead(record: Option<Record>, after: Cursor)

  /** The header of a frame agrees with its manifest entry. */
  predicate HeaderMatches(header: Bytes, e: Entry)
    requires |header| == FRAME_HEADER_LEN
  {
    && FromLittleEndian(header[..2]) == e.kind
    && ((FromLittleEndian(header[2..4]) != 0) <==> e.critical)
    && FromLittleEndian(header[4..]) == e.byteLen
  }

  /** What a frame's bytes are, once their digest matched the entry. */
  function Interpret(c: Codec, e: Entry, index: nat, bytes: Bytes): Result<Option<Record>, DropError> {
    if !(1 <= e.kind <= 4) then
      if e.critical then Err(UnknownCriticalRecord(e.kind)) else Ok(None)
    else
      var record := c.readRecord(bytes);
      if record.None? then Err(CodecFailed)
      else if Kind(record.value) != e.kind || Critical(record.value) != e.critical
              || c.recordBytes(record.value) != bytes
      then Err(FalseRecord(index))
      else Ok(record)
  }

  function ReadFrame(c: Codec, limits: Limits, e: Entry, index: nat, protectedBytes: nat, cur: Cursor)
    : Result<FrameRead, DropError>
  {
    if e.byteLen > limits.maxRecordBytes then Err(Limit("record bytes", e.byteLen, limits.maxRecordBytes))
    else if |cur.hashed| + FRAME_HEADER_LEN + e.byteLen > protectedBytes then Err(BodyLengthMismatch)
    else
      var header := Take(cur, FRAME_HEADER_LEN);
      if header.Err? then Err(header.error)
      else if !HeaderMatches(header.value.bytes, e) then Err(FalseRecord(index))
      else
        var payload := Take(header.value.after, e.byteLen);
        if payload.Err? then Err(payload.error)
        else if c.hash(payload.value.bytes) != e.digest then Err(FalseRecord(index))
        else
          var record := Interpret(c, e, index, payload.value.bytes);
          if record.Err? then Err(record.error) else Ok(FrameRead(record.value, payload.value.after))
  }

  /** The records handed to the visitor, how many were skipped, and where reading ended. */
  datatype Run = Run(visited: seq<Record>, skipped: nat, outcome: Result<Cursor, DropError>)

  function Prepend(visited: seq<Record>, skipped: nat, run: Run): Run {
    Run(visited + run.visited, skipped + run.skipped, run.outcome)
  }

  function Delivered(record: Option<Record>): seq<Record> {
    if record.Some? then [record.value] else []
  }

  function Skipped(record: Option<Record>): nat {
    if record.Some? then 0 else 1
  }

  function ReadFrames(c: Codec, limits: Limits, entries: seq<Entry>, i: nat, protectedBytes: nat, cur: Cursor): Run
    requires i <= |entries|
    decreases |entries| - i
  {
    if i == |entries| then Run([], 0, Ok(cur))
    else
      var frame := ReadFrame(c, limits, entries[i], i, protectedBytes, cur);
      if frame.Err? then Run([], 0, Err(frame.error))
      else Prepend(Delivered(frame.value.record), Skipped(frame.value.record),
                   ReadFrames(c, limits, entries, i + 1, protectedBytes, frame.value.after))
  }

  datatype ManifestRead = ManifestRead(manifest: Manifest, after: Cursor)

  function ReadManifest(c: Codec, limits: Limits, protectedBytes: nat, cur: Cursor): Result<ManifestRead, DropError> {
    var length := Take(cur, 8);
    if length.Err? then Err(length.error)
    else
      var manifestLen := FromLittleEndian(length.value.bytes);
      if manifestLen > limits.maxManifestBytes then Err(Limit("manifest bytes", manifestLen, limits.maxManifestBytes))
      else if 8 + manifestLen > protectedBytes then Err(BodyLengthMismatch)
      else
        var bytes := Take(length.value.after, manifestLen);
        if bytes.Err? then Err(bytes.error)
        else
          var manifest := c.readManifest(bytes.value.bytes);
          if manifest.None? then Err(CodecFailed)
          else if c.manifestBytes(manifest.value) != bytes.value.bytes then Err(CodecFailed)
          else if manifest.value.version != VERSION then Err(UnsupportedVersion(manifest.value.version))
          else if |manifest.value.records| > limits.maxRecords
          then Err(Limit("record count", |manifest.value.records|, limits.maxRecords))
          else Ok(ManifestRead(manifest.value, bytes.value.after))
  }

  datatype Visited = Visited(records: seq<Record>, outcome: Result<Report, DropError>)

  /** The last two checks: the whole body was read, and its digest is the cover's. */
  function Conclude(c: Codec, cover: CoverRead, manifest: Manifest, run: Run): Visited {
    if run.outcome.Err? then Visited(run.visited, Err(run.outcome.error))
    else if |run.outcome.value.hashed| != cover.protectedBytes then Visited(run.visited, Err(BodyLengthMismatch))
    else if c.hash(run.outcome.value.hashed) != cover.digest then Visited(run.visited, Err(FalseBodyDigest))
    else Visited(run.visited, Ok(Report(IdOf(c, manifest), |manifest.records|, |run.visited|, run.skipped)))
  }

  function VisitBody(c: Codec, limits: Limits, cover: CoverRead): Visited {
    if cover.protectedBytes > limits.maxProtectedBytes
    then Visited([], Err(Limit("protected bytes", cover.protectedBytes, limits.maxProtectedBytes)))
    else
      var head := ReadManifest(c, limits, cover.protectedBytes, Cursor([], cover.rest));
      if head.Err? then Visited([], Err(head.error))
      else Conclude(c, cover, head.value.manifest,
                    ReadFrames(c, limits, head.value.manifest.records, 0, cover.protectedBytes, head.value.after))
  }

  /** Everything the reader does with an input, visited records included. */
  function Visit(c: Codec, input: Bytes, limits: Limits): Visited {
    var cover := ReadCover(input);
    if cover.Err? then Visited([], Err(cover.error))
    else if cover.value.suite != PLAIN_SUITE then Visited([], Err(UnsupportedProtection(cover.value.suite)))
    else VisitBody(c, limits, cover.value)
  }

  /** The visiting loop; `records` are the ones the callback received, also when the read fails. */
  method VisitPlainDrop(c: Codec, input: Bytes, limits: Limits)
    returns (outcome: Result<Report, DropError>, records: seq<Record>)
    ensures Visited(records, outcome) == Visit(c, input, limits)
  {
    records := [];
    var cover := ReadCover(input);
    if cover.Err? {
      return Err(cover.error), [];
    }
    if cover.value.suite != PLAIN_SUITE {
      return Err(UnsupportedProtection(cover.value.suite)), [];
    }
    var protectedBytes := cover.value.protectedBytes;
    if protectedBytes > limits.maxProtectedBytes {
      return Err(Limit("protected bytes", protectedBytes, limits.maxProtectedBytes)), [];
    }
    var head := ReadManifest(c, limits, protectedBytes, Cursor([], cover.value.rest));
    if head.Err? {
      return Err(head.error), [];
    }
    var manifest := head.value.manifest;
    var cur := head.value.after;
    var skipped: nat := 0;
    ghost var whole := ReadFrames(c, limits, manifest.records, 0, protectedBytes, cur);
    for i := 0 to |manifest.records|
      invariant whole == Prepend(records, skipped, ReadFrames(c, limits, manifest.records, i, protectedBytes, cur))
    {
      var frame := ReadFrame(c, limits, manifest.records[i], i, protectedBytes, cur);
      if frame.Err? {
        assert records + [] == records;
        return Err(frame.error), records;
      }
      PrependTwice(records, skipped, Delivered(frame.value.record), Skipped(frame.value.record),
                   ReadFrames(c, limits, manifest.records, i + 1, protectedBytes, frame.value.after));
      records := records + Delivered(frame.value.record);
      skipped := skipped + Skipped(frame.value.record);
      cur := frame.value.after;
    }
    assert whole == Run(records, skipped, Ok(cur)) by { assert records + [] == records; }
    if |cur.hashed| != protectedBytes {
      return Err(BodyLengthMismatch), records;
    }
    if c.hash(cur.hashed) != cover.value.digest {
      return Err(FalseBodyDigest), records;
    }
    outcome := Ok(Report(IdOf(c, manifest), |manifest.records|, |records|, skipped));
  }

  lemma PrependTwice(a: seq<Record>, m: nat, b: seq<Record>, n: nat, run: Run)
    ensures Prepend(a, m, Prepend(b, n, run)) == Prepend(a + b, m + n, run)
  {
    assert a + (b + run.visited) == (a + b) + run.visited;
  }
}

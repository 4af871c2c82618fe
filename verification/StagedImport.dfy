/**
 Importing a drop through durable staging (crates/stickleback/src/drop_io.rs). The store is a
 key-value map changed only by atomic batches; a batch may fail to land and a crash may fall
 between any two. The domain (content assembly, operation decoding, authorization, the effects on
 live data) is a parameter: it decides, from the live data and the records, whether to refuse
 before staging, to reject after it, or which live keys to write.
 */
module StagedImport {
  import opened Wrappers
  import opened Drop

  type DropId = nat

  datatype Key =
    | ReceiptKey(id: DropId)
    | StageMeta(id: DropId)
    | StageRecord(id: DropId, index: nat)
    | Live(name: nat)

  datatype Value =
    | ReceiptValue(operations: nat, others: nat)
    | MetaValue(id: DropId, count: nat)
    | Raw(bytes: Bytes)

  type Db = map<Key, Value>

  datatype WriteOp = Put(key: Key, value: Value) | Delete(key: Key)

  function ApplyOne(db: Db, w: WriteOp): Db {
    match w
    case Put(key, value) => db[key := value]
    case Delete(key) => db - {key}
  }

  /** A batch lands whole, in order. */
  function ApplyAll(db: Db, writes: seq<WriteOp>): Db
    decreases |writes|
  {
    if writes == [] then db else ApplyAll(ApplyOne(db, writes[0]), writes[1..])
  }

  lemma {:induction false} ApplyAppend(db: Db, a: seq<WriteOp>, b: seq<WriteOp>)
    ensures ApplyAll(db, a + b) == ApplyAll(ApplyAll(db, a), b)
    decreases |a|
  {
    if a == [] {
      assert a + b == b;
    } else {
      assert (a + b)[1..] == a[1..] + b && (a + b)[0] == a[0];
      ApplyAppend(ApplyOne(db, a[0]), a[1..], b);
    }
  }

  lemma ApplyLast(db: Db, a: seq<WriteOp>, w: WriteOp)
    ensures ApplyAll(db, a + [w]) == ApplyOne(ApplyAll(db, a), w)
  {
    ApplyAppend(db, a, [w]);
    assert [w][1..] == [];
  }

  // ---------- The domain ----------

  datatype Counts = Counts(operations: nat, others: nat)

  datatype LiveWrite = LiveWrite(name: nat, value: Option<Bytes>)

  datatype Domain = Domain(
    admit: (Db, seq<Record>) -> Option<Counts>,
    effects: (Db, seq<Record>) -> Option<seq<LiveWrite>>)

  function LiveOf(db: Db): Db {
    map k | k in db && k.Live? :: db[k]
  }

  function LiveOp(w: LiveWrite): WriteOp {
    if w.value.Some? then Put(Live(w.name), Raw(w.value.value)) else Delete(Live(w.name))
  }

  function LiveOps(writes: seq<LiveWrite>): seq<WriteOp> {
    seq(|writes|, i requires 0 <= i < |writes| => LiveOp(writes[i]))
  }

  /** The batch touches live keys only. */
  predicate OnlyLive(writes: seq<WriteOp>) {
    forall i :: 0 <= i < |writes| ==> writes[i].key.Live?
  }

  lemma {:induction false} LiveWritesKeepTheRest(db: Db, writes: seq<WriteOp>, k: Key)
    requires OnlyLive(writes) && !k.Live?
    ensures k in ApplyAll(db, writes) <==> k in db
    ensures k in db ==> ApplyAll(db, writes)[k] == db[k]
    decreases |writes|
  {
    if writes != [] { LiveWritesKeepTheRest(ApplyOne(db, writes[0]), writes[1..], k); }
  }

  // ---------- Staging ----------

  predicate StagesFor(k: Key, id: DropId) {
    (k.StageMeta? || k.StageRecord?) && k.id == id
  }

  function Unstaged(db: Db, id: DropId): Db {
    map k | k in db && !StagesFor(k, id) :: db[k]
  }

  function StageKeys(id: DropId, count: nat): set<Key> {
    {StageMeta(id)} + set i | 0 <= i < count :: StageRecord(id, i)
  }

  function StageValue(c: Codec, id: DropId, records: seq<Record>, k: Key): Value
    requires k in StageKeys(id, |records|)
  {
    if k.StageMeta? then MetaValue(id, |records|) else Raw(c.recordBytes(records[k.index]))
  }

  function Staged(c: Codec, db: Db, id: DropId, records: seq<Record>): Db {
    Unstaged(db, id) + map k | k in StageKeys(id, |records|) :: StageValue(c, id, records, k)
  }

  /** After the commit: the effects, the receipt, and no stage. */
  function Committed(db: Db, id: DropId, writes: seq<LiveWrite>, counts: Counts): Db {
    ApplyAll(Unstaged(db, id), LiveOps(writes))[ReceiptKey(id) := ReceiptValue(counts.operations, counts.others)]
  }

  datatype ImportError =
    | Backend
    | Refused
    | Rejected
    | MissingStage
    | FalseStage
    | StagingCodec
    | OverLimit(limit: string, actual: nat, maximum: nat)

  datatype ImportReport = ImportReport(id: DropId, counts: Counts, receiptHit: bool)

  /** Which of the batches of one call land. */
  datatype Faults = Faults(stageLands: bool, commitLands: bool, discardLands: bool)

  datatype Outcome = Outcome(db: Db, result: Result<ImportReport, ImportError>)

  /** What importing the records does to the store. */
  function Imported(c: Codec, dom: Domain, db: Db, id: DropId, records: seq<Record>, f: Faults): Outcome {
    if ReceiptKey(id) in db then
      var receipt := db[ReceiptKey(id)];
      if !receipt.ReceiptValue? then Outcome(db, Err(StagingCodec))
      else if !f.discardLands then Outcome(db, Err(Backend))
      else Outcome(Unstaged(db, id), Ok(ImportReport(id, Counts(receipt.operations, receipt.others), true)))
    else
      var counts := dom.admit(LiveOf(db), records);
      var effects := dom.effects(LiveOf(db), records);
      if counts.None? then Outcome(db, Err(Refused))
      else if !f.stageLands then Outcome(db, Err(Backend))
      else if effects.None? then Outcome(Staged(c, db, id, records), Err(Rejected))
      else if !f.commitLands then Outcome(Staged(c, db, id, records), Err(Backend))
      else Outcome(Committed(db, id, effects.value, counts.value), Ok(ImportReport(id, counts.value, false)))
  }

  /** The records of a stage from index `i` on. */
  function ReadFrom(c: Codec, db: Db, id: DropId, i: nat, count: nat, limits: Limits): Result<seq<Record>, ImportError>
    requires i <= count
    decreases count - i
  {
    if i == count then Ok([])
    else if StageRecord(id, i) !in db then Err(FalseStage)
    else
      var value := db[StageRecord(id, i)];
      if !value.Raw? then Err(StagingCodec)
      else if |value.bytes| > limits.maxRecordBytes
      then Err(OverLimit("record bytes", |value.bytes|, limits.maxRecordBytes))
      else
        var record := c.readRecord(value.bytes);
        if record.None? then Err(StagingCodec)
        else
          var rest := ReadFrom(c, db, id, i + 1, count, limits);
          if rest.Err? then rest else Ok([record.value] + rest.value)
  }

  function ReadStage(c: Codec, db: Db, id: DropId, limits: Limits): Result<seq<Record>, ImportError> {
    if StageMeta(id) !in db then Err(MissingStage)
    else
      var meta := db[StageMeta(id)];
      if !meta.MetaValue? then Err(StagingCodec)
      else if meta.id != id then Err(FalseStage)
      else if meta.count > limits.maxRecords then Err(OverLimit("record count", meta.count, limits.maxRecords))
      else ReadFrom(c, db, id, 0, meta.count, limits)
  }

  function Resumed(c: Codec, dom: Domain, db: Db, id: DropId, limits: Limits, f: Faults): Outcome {
    var records := ReadStage(c, db, id, limits);
    if records.Err? then Outcome(db, Err(records.error)) else Imported(c, dom, db, id, records.value, f)
  }

  // ---------- The importer ----------

  class Importer {
    const codec: Codec
    const domain: Domain
    var db: Db

    constructor (codec: Codec, domain: Domain)
      ensures db == map[] && this.codec == codec && this.domain == domain
    {
      this.codec := codec;
      this.domain := domain;
      db := map[];
    }

    /** One atomic batch, or nothing. */
    method Apply(writes: seq<WriteOp>, lands: bool) returns (ok: bool)
      modifies this`db
      ensures ok == lands
      ensures db == if lands then ApplyAll(old(db), writes) else old(db)
    {
      if lands { db := ApplyAll(db, writes); }
      ok := lands;
    }

    method DiscardStaged(id: DropId, lands: bool) returns (ok: bool)
      modifies this`db
      ensures ok == lands
      ensures db == if lands then Unstaged(old(db), id) else old(db)
    {
      var keys := set k | k in db && StagesFor(k, id);
      var writes := DeleteAll(keys);
      DeletesLand(db, keys, writes);
      assert db - keys == Unstaged(db, id);
      ok := Apply(writes, lands);
    }

    /** Replaces any stage of the drop by one holding exactly these records, in one batch. */
    method StageRecords(id: DropId, records: seq<Record>, lands: bool) returns (ok: bool, staged: seq<Key>)
      modifies this`db
      ensures ok == lands
      ensures db == if lands then Staged(codec, old(db), id, records) else old(db)
      ensures (set k | k in staged) == StageKeys(id, |records|)
    {
      var writes;
      writes, staged := StageWrites(codec, db, id, records);
      ok := Apply(writes, lands);
    }

    method ImportRecords(id: DropId, records: seq<Record>, f: Faults) returns (r: Result<ImportReport, ImportError>)
      modifies this`db
      ensures Outcome(db, r) == Imported(codec, domain, old(db), id, records, f)
    {
      ghost var before := db;
      if ReceiptKey(id) in db {
        var receipt := db[ReceiptKey(id)];
        if !receipt.ReceiptValue? {
          return Err(StagingCodec);
        }
        var discarded := DiscardStaged(id, f.discardLands);
        return if discarded then Ok(ImportReport(id, Counts(receipt.operations, receipt.others), true))
            else Err(Backend);
      }
      var live := LiveOf(db);
      var counts := domain.admit(live, records);
      if counts.None? {
        return Err(Refused);
      }
      var stagedOk, staged := StageRecords(id, records, f.stageLands);
      if !stagedOk {
        return Err(Backend);
      }
      assert LiveOf(db) == live;
      var effects := domain.effects(LiveOf(db), records);
      if effects.None? {
        return Err(Rejected);
      }
      var final := DeleteKeys(staged)
          + [Put(ReceiptKey(id), ReceiptValue(counts.value.operations, counts.value.others))];
      CommitLands(codec, before, id, records, effects.value, counts.value, staged);
      var committed := Apply(LiveOps(effects.value) + final, f.commitLands);
      r := if committed then Ok(ImportReport(id, counts.value, false)) else Err(Backend);
    }

    method Resume(id: DropId, limits: Limits, f: Faults) returns (r: Result<ImportReport, ImportError>)
      modifies this`db
      ensures Outcome(db, r) == Resumed(codec, domain, old(db), id, limits, f)
    {
      if StageMeta(id) !in db {
        return Err(MissingStage);
      }
      var meta := db[StageMeta(id)];
      if !meta.MetaValue? {
        return Err(StagingCodec);
      }
      if meta.id != id {
        return Err(FalseStage);
      }
      if meta.count > limits.maxRecords {
        return Err(OverLimit("record count", meta.count, limits.maxRecords));
      }
      var records: seq<Record> := [];
      ghost var whole := ReadFrom(codec, db, id, 0, meta.count, limits);
      assert whole.Ok? ==> [] + whole.value == whole.value;
      for i := 0 to meta.count
        invariant db == old(db)
        invariant Continues(whole, records, ReadFrom(codec, db, id, i, meta.count, limits))
      {
        if StageRecord(id, i) !in db {
          return Err(FalseStage);
        }
        var value := db[StageRecord(id, i)];
        if !value.Raw? {
          return Err(StagingCodec);
        }
        if |value.bytes| > limits.maxRecordBytes {
          return Err(OverLimit("record bytes", |value.bytes|, limits.maxRecordBytes));
        }
        var record := codec.readRecord(value.bytes);
        if record.None? {
          return Err(StagingCodec);
        }
        ContinuesOne(whole, records, record.value, ReadFrom(codec, db, id, i + 1, meta.count, limits));
        records := records + [record.value];
      }
      assert records + [] == records;
      assert whole == Ok(records);
      r := ImportRecords(id, records, f);
    }
  }

  /** The whole read is what was read so far and then the rest. */
  ghost predicate Continues(whole: Result<seq<Record>, ImportError>, front: seq<Record>,
                            rest: Result<seq<Record>, ImportError>)
  {
    whole == if rest.Err? then rest else Ok(front + rest.value)
  }

  lemma ContinuesOne(whole: Result<seq<Record>, ImportError>, front: seq<Record>, record: Record,
      rest: Result<seq<Record>, ImportError>)
    requires Continues(whole, front, if rest.Err? then rest else Ok([record] + rest.value))
    ensures Continues(whole, front + [record], rest)
  {
    if rest.Ok? { assert front + ([record] + rest.value) == (front + [record]) + rest.value; }
  }

  // ---------- Batches ----------

  /** One delete per key, in whatever order the keys are listed. */
  method DeleteAll(keys: set<Key>) returns (writes: seq<WriteOp>)
    ensures forall i :: 0 <= i < |writes| ==> writes[i].Delete?
    ensures (set i | 0 <= i < |writes| :: writes[i].key) == keys
  {
    writes := [];
    var left := keys;
    while left != {}
      invariant left <= keys
      invariant forall i :: 0 <= i < |writes| ==> writes[i].Delete?
      invariant (set i | 0 <= i < |writes| :: writes[i].key) == keys - left
      decreases |left|
    {
      var k :| k in left;
      ghost var before := writes;
      writes := writes + [Delete(k)];
      KeysOfAppend(before, Delete(k));
      left := left - {k};
    }
  }

  lemma KeysOfAppend(writes: seq<WriteOp>, w: WriteOp)
    ensures (set i | 0 <= i < |writes + [w]| :: (writes + [w])[i].key)
            == (set i | 0 <= i < |writes| :: writes[i].key) + {w.key}
  {
    var more := writes + [w];
    assert more[|writes|] == w;
    assert forall i :: 0 <= i < |writes| ==> more[i] == writes[i];
  }

  function DeleteKeys(keys: seq<Key>): seq<WriteOp> {
    seq(|keys|, i requires 0 <= i < |keys| => Delete(keys[i]))
  }

  lemma DeleteKeysKeys(keys: seq<Key>)
    ensures var deletes := DeleteKeys(keys); (set i | 0 <= i < |deletes| :: deletes[i].key) == (set k | k in keys)
  {
    var deletes := DeleteKeys(keys);
    forall k | k in keys ensures k in (set i | 0 <= i < |deletes| :: deletes[i].key) {
      var i :| 0 <= i < |keys| && keys[i] == k;
      assert deletes[i].key == k;
    }
  }

  lemma {:induction false} DeletesLand(db: Db, keys: set<Key>, writes: seq<WriteOp>)
    requires forall i :: 0 <= i < |writes| ==> writes[i].Delete?
    requires (set i | 0 <= i < |writes| :: writes[i].key) == keys
    ensures ApplyAll(db, writes) == db - keys
    decreases |writes|
  {
    if writes != [] {
      var rest := set i | 0 <= i < |writes[1..]| :: writes[1..][i].key;
      DeletesLand(ApplyOne(db, writes[0]), rest, writes[1..]);
      assert keys == {writes[0].key} + rest by {
        assert forall i :: 0 <= i < |writes[1..]| ==> writes[1..][i] == writes[i + 1];
        forall k | k in keys ensures k in {writes[0].key} + rest {
          var i :| 0 <= i < |writes| && writes[i].key == k;
          if i > 0 { assert writes[1..][i - 1].key == k; }
        }
      }
    }
  }

  function StagedUpTo(c: Codec, db: Db, id: DropId, records: seq<Record>, n: nat): Db
    requires n <= |records|
  {
    Unstaged(db, id)
    + map k | k in StageKeys(id, n) :: (StageKeysIn(id, n, |records|, k); StageValue(c, id, records, k))
  }

  lemma StagedUpToNone(c: Codec, db: Db, id: DropId, records: seq<Record>)
    ensures StagedUpTo(c, db, id, records, 0) == Unstaged(db, id)[StageMeta(id) := MetaValue(id, |records|)]
  {
    assert StageKeys(id, 0) == {StageMeta(id)};
  }

  lemma StagedUpToNext(c: Codec, db: Db, id: DropId, records: seq<Record>, n: nat)
    requires n < |records|
    ensures StagedUpTo(c, db, id, records, n)[StageRecord(id, n) := Raw(c.recordBytes(records[n]))]
            == StagedUpTo(c, db, id, records, n + 1)
  {
    StageKeysGrow(id, n);
  }

  lemma StagedUpToAll(c: Codec, db: Db, id: DropId, records: seq<Record>)
    ensures StagedUpTo(c, db, id, records, |records|) == Staged(c, db, id, records)
  {
  }

  /** The staging batch: drop the old stage, then the count, then each record. */
  method StageWrites(c: Codec, db: Db, id: DropId, records: seq<Record>)
    returns (writes: seq<WriteOp>, staged: seq<Key>)
    ensures ApplyAll(db, writes) == Staged(c, db, id, records)
    ensures (set k | k in staged) == StageKeys(id, |records|)
  {
    var keys := set k | k in db && StagesFor(k, id);
    writes := DeleteAll(keys);
    DeletesLand(db, keys, writes);
    assert db - keys == Unstaged(db, id);
    var meta := Put(StageMeta(id), MetaValue(id, |records|));
    ApplyLast(db, writes, meta);
    StagedUpToNone(c, db, id, records);
    writes, staged := writes + [meta], [StageMeta(id)];
    for i := 0 to |records|
      invariant ApplyAll(db, writes) == StagedUpTo(c, db, id, records, i)
      invariant (set k | k in staged) == StageKeys(id, i)
    {
      var write := Put(StageRecord(id, i), Raw(c.recordBytes(records[i])));
      ApplyLast(db, writes, write);
      StagedUpToNext(c, db, id, records, i);
      MembersAppend(staged, StageRecord(id, i));
      StageKeysGrow(id, i);
      writes, staged := writes + [write], staged + [StageRecord(id, i)];
    }
    StagedUpToAll(c, db, id, records);
  }

  lemma MembersAppend(keys: seq<Key>, key: Key)
    ensures (set k | k in keys + [key]) == (set k | k in keys) + {key}
  {
  }

  lemma StageKeysIn(id: DropId, n: nat, m: nat, k: Key)
    requires n <= m && k in StageKeys(id, n)
    ensures k in StageKeys(id, m)
  {
  }

  lemma StageKeysGrow(id: DropId, n: nat)
    ensures StageKeys(id, n + 1) == StageKeys(id, n) + {StageRecord(id, n)}
  {
  }

  lemma BatchLands(db: Db, live: seq<WriteOp>, staged: seq<Key>, last: WriteOp)
    ensures ApplyAll(db, live + (DeleteKeys(staged) + [last]))
            == ApplyOne(ApplyAll(db, live) - (set k | k in staged), last)
  {
    ApplyAppend(db, live, DeleteKeys(staged) + [last]);
    ApplyLast(ApplyAll(db, live), DeleteKeys(staged), last);
    DeleteKeysKeys(staged);
    DeletesLand(ApplyAll(db, live), (set k | k in staged), DeleteKeys(staged));
  }

  /** The closing batch of a successful import, applied to the staged store. */
  lemma CommitLands(c: Codec, db: Db, id: DropId, records: seq<Record>, writes: seq<LiveWrite>, counts: Counts,
                    staged: seq<Key>)
    requires (set k | k in staged) == StageKeys(id, |records|)
    ensures var receipt := Put(ReceiptKey(id), ReceiptValue(counts.operations, counts.others));
            ApplyAll(Staged(c, db, id, records), LiveOps(writes) + (DeleteKeys(staged) + [receipt]))
            == Committed(db, id, writes, counts)
  {
    var start := Staged(c, db, id, records);
    var receipt := Put(ReceiptKey(id), ReceiptValue(counts.operations, counts.others));
    BatchLands(start, LiveOps(writes), staged, receipt);
    LiveWritesCommute(start, LiveOps(writes), StageKeys(id, |records|));
    assert start - StageKeys(id, |records|) == Unstaged(db, id);
  }

  /** Deleting stage keys and writing live keys may be done in either order. */
  lemma {:induction false} LiveWritesCommute(db: Db, writes: seq<WriteOp>, keys: set<Key>)
    requires OnlyLive(writes) && forall k :: k in keys ==> !k.Live?
    ensures ApplyAll(db, writes) - keys == ApplyAll(db - keys, writes)
    decreases |writes|
  {
    if writes != [] {
      LiveWritesCommute(ApplyOne(db, writes[0]), writes[1..], keys);
      assert ApplyOne(db, writes[0]) - keys == ApplyOne(db - keys, writes[0]);
    }
  }
}

/**
 Staged import over every run of imports, resumes and discards, with batches failing and crashes
 falling anywhere: a drop never has both a receipt and a stage, a stage is always the whole record
 list last staged for it, resuming is re-importing, and a drop's effects land at most once.
 */
module ImportRuns {
  import opened Wrappers
  import opened Drop
  import opened StagedImport

  datatype Step =
    | Import(id: DropId, records: seq<Record>, faults: Faults)
    | Resume(id: DropId, limits: Limits, faults: Faults)
    | Discard(id: DropId, lands: bool)

  /** The store, and for each drop the records last staged under its identifier. */
  datatype State = State(db: Db, last: map<DropId, seq<Record>>)

  function After(c: Codec, dom: Domain, s: State, step: Step): State {
    match step
    case Import(id, records, f) =>
      State(Imported(c, dom, s.db, id, records, f).db,
            if Stages(dom, s.db, id, records, f) then s.last[id := records] else s.last)
    case Resume(id, limits, f) => s.(db := Resumed(c, dom, s.db, id, limits, f).db)
    case Discard(id, lands) => if lands then s.(db := Unstaged(s.db, id)) else s
  }

  /** The import reaches its staging batch and the batch lands. */
  predicate Stages(dom: Domain, db: Db, id: DropId, records: seq<Record>, f: Faults) {
    ReceiptKey(id) !in db && dom.admit(LiveOf(db), records).Some? && f.stageLands
  }

  function AfterAll(c: Codec, dom: Domain, s: State, steps: seq<Step>): State
    decreases |steps|
  {
    if steps == [] then s else AfterAll(c, dom, After(c, dom, s, steps[0]), steps[1..])
  }

  // ---------- What every state satisfies ----------

  ghost predicate NoStage(db: Db, id: DropId) {
    forall k :: k in db ==> !StagesFor(k, id)
  }

  /** The stage of a drop is the count and the encoded records, no more and no less. */
  ghost predicate StageIs(c: Codec, db: Db, id: DropId, records: seq<Record>) {
    && (forall k :: StagesFor(k, id) ==> (k in db <==> k in StageKeys(id, |records|)))
    && (forall k :: k in StageKeys(id, |records|) && k in db ==> db[k] == StageValue(c, id, records, k))
  }

  ghost predicate Consistent(c: Codec, s: State, id: DropId) {
    && (ReceiptKey(id) in s.db ==> s.db[ReceiptKey(id)].ReceiptValue? && NoStage(s.db, id))
    && (StageMeta(id) !in s.db ==> NoStage(s.db, id))
    && (StageMeta(id) in s.db ==> id in s.last && StageIs(c, s.db, id, s.last[id]))
  }

  ghost predicate Valid(c: Codec, s: State) {
    forall id :: Consistent(c, s, id)
  }

  /** The two stores agree on everything kept about one drop. */
  ghost predicate SameFor(a: Db, b: Db, id: DropId) {
    forall k :: StagesFor(k, id) || k == ReceiptKey(id) ==> (k in a <==> k in b) && (k in a ==> a[k] == b[k])
  }

  lemma SameForConsistent(c: Codec, s: State, t: State, id: DropId)
    requires Consistent(c, s, id) && SameFor(s.db, t.db, id)
    requires id in s.last ==> id in t.last && t.last[id] == s.last[id]
    ensures Consistent(c, t, id)
  {
    assert StagesFor(StageMeta(id), id);
    if StageMeta(id) in t.db {
      var records := t.last[id];
      forall k | k in StageKeys(id, |records|) && k in t.db ensures t.db[k] == StageValue(c, id, records, k) {
        assert StagesFor(k, id);
      }
    }
  }

  lemma CommittedKeys(db: Db, id: DropId, writes: seq<LiveWrite>, counts: Counts, k: Key)
    requires !k.Live?
    ensures k in Committed(db, id, writes, counts) <==> k == ReceiptKey(id) || (k in db && !StagesFor(k, id))
    ensures k in Committed(db, id, writes, counts) && k != ReceiptKey(id) ==>
            Committed(db, id, writes, counts)[k] == db[k]
  {
    LiveWritesKeepTheRest(Unstaged(db, id), LiveOps(writes), k);
  }

  /** An import touches nothing kept about any other drop. */
  lemma OthersUntouched(c: Codec, dom: Domain, db: Db, id: DropId, records: seq<Record>, f: Faults, other: DropId)
    requires other != id
    ensures SameFor(db, Imported(c, dom, db, id, records, f).db, other)
  {
    var next := Imported(c, dom, db, id, records, f);
    forall k | StagesFor(k, other) || k == ReceiptKey(other)
      ensures (k in db <==> k in next.db) && (k in db ==> db[k] == next.db[k])
    {
      assert k !in StageKeys(id, |records|);
      if next.result.Ok? && !next.result.value.receiptHit {
        CommittedKeys(db, id, dom.effects(LiveOf(db), records).value, dom.admit(LiveOf(db), records).value, k);
      }
    }
  }

  lemma StagedConsistent(c: Codec, s: State, id: DropId, records: seq<Record>)
    requires ReceiptKey(id) !in s.db
    ensures Consistent(c, State(Staged(c, s.db, id, records), s.last[id := records]), id)
  {
  }

  lemma UnstagedConsistent(c: Codec, s: State, id: DropId, other: DropId)
    requires Valid(c, s)
    ensures Consistent(c, State(Unstaged(s.db, id), s.last), other)
  {
    assert Consistent(c, s, other);
    if id != other { SameForConsistent(c, s, State(Unstaged(s.db, id), s.last), other); }
  }

  lemma CommittedConsistent(c: Codec, s: State, id: DropId, writes: seq<LiveWrite>, counts: Counts,
                            last: map<DropId, seq<Record>>)
    ensures Consistent(c, State(Committed(s.db, id, writes, counts), last), id)
  {
    var db := Committed(s.db, id, writes, counts);
    forall k | k in db ensures !StagesFor(k, id) {
      if StagesFor(k, id) { CommittedKeys(s.db, id, writes, counts, k); }
    }
    CommittedKeys(s.db, id, writes, counts, StageMeta(id));
  }

  lemma ImportKeeps(c: Codec, dom: Domain, s: State, id: DropId, records: seq<Record>, f: Faults)
    requires Valid(c, s)
    ensures Valid(c, After(c, dom, s, Import(id, records, f)))
  {
    var t := After(c, dom, s, Import(id, records, f));
    forall other ensures Consistent(c, t, other) {
      assert Consistent(c, s, other);
      if other != id {
        OthersUntouched(c, dom, s.db, id, records, f, other);
        SameForConsistent(c, s, t, other);
      } else if Stages(dom, s.db, id, records, f) {
        var effects := dom.effects(LiveOf(s.db), records);
        if effects.Some? && f.commitLands {
          CommittedConsistent(c, s, id, effects.value, dom.admit(LiveOf(s.db), records).value, t.last);
        } else {
          StagedConsistent(c, s, id, records);
        }
      } else if t.db != s.db {
        UnstagedConsistent(c, s, id, id);
      }
    }
  }

  // ---------- Reading a stage ----------

  /** The records are within the limits a resume enforces. */
  ghost predicate WithinLimits(c: Codec, records: seq<Record>, limits: Limits) {
    && |records| <= limits.maxRecords
    && forall i :: 0 <= i < |records| ==> |c.recordBytes(records[i])| <= limits.maxRecordBytes
  }

  /** There is a stage, and a resume may read it. */
  ghost predicate Resumable(c: Codec, s: State, id: DropId, limits: Limits) {
    StageMeta(id) in s.db && id in s.last && WithinLimits(c, s.last[id], limits)
  }

  lemma StageHolds(c: Codec, db: Db, id: DropId, records: seq<Record>, i: nat)
    requires StageIs(c, db, id, records) && StageMeta(id) in db && i < |records|
    ensures StageRecord(id, i) in db && db[StageRecord(id, i)] == Raw(c.recordBytes(records[i]))
  {
    assert StagesFor(StageRecord(id, i), id);
    assert StageRecord(id, i) in StageKeys(id, |records|);
  }

  lemma {:induction false} ReadFromIs(c: Codec, db: Db, id: DropId, records: seq<Record>, i: nat, limits: Limits)
    requires Lawful(c) && StageIs(c, db, id, records) && StageMeta(id) in db && i <= |records|
    ensures var r := ReadFrom(c, db, id, i, |records|, limits);
            && (r.Ok? <==> forall k :: i <= k < |records| ==> |c.recordBytes(records[k])| <= limits.maxRecordBytes)
            && (r.Ok? ==> r.value == records[i..])
    decreases |records| - i
  {
    if i < |records| {
      StageHolds(c, db, id, records, i);
      ReadFromIs(c, db, id, records, i + 1, limits);
      assert [records[i]] + records[i + 1..] == records[i..];
    }
  }

  /** Record `k` of what is staged stands in the store, within the limit and readable. */
  ghost predicate StandsAt(c: Codec, db: Db, id: DropId, record: Record, k: nat, limits: Limits) {
    && StageRecord(id, k) in db
    && db[StageRecord(id, k)].Raw?
    && |db[StageRecord(id, k)].bytes| <= limits.maxRecordBytes
    && c.readRecord(db[StageRecord(id, k)].bytes) == Some(record)
  }

  lemma {:induction false} ReadFromIff(c: Codec, db: Db, id: DropId, i: nat, records: seq<Record>, limits: Limits)
    ensures ReadFrom(c, db, id, i, i + |records|, limits) == Ok(records) <==>
            forall k :: 0 <= k < |records| ==> StandsAt(c, db, id, records[k], i + k, limits)
    decreases |records|
  {
    if records == [] {
    } else {
      var rest := records[1..];
      ReadFromIff(c, db, id, i + 1, rest, limits);
      assert records == [records[0]] + rest;
      assert i + |records| == i + 1 + |rest|;
      if forall k :: 0 <= k < |records| ==> StandsAt(c, db, id, records[k], i + k, limits) {
        assert StandsAt(c, db, id, records[0], i + 0, limits);
        forall k | 0 <= k < |rest| ensures StandsAt(c, db, id, rest[k], i + 1 + k, limits) {
          assert StandsAt(c, db, id, records[k + 1], i + (k + 1), limits);
        }
      }
      if ReadFrom(c, db, id, i, i + |records|, limits) == Ok(records) {
        forall k | 0 <= k < |records| ensures StandsAt(c, db, id, records[k], i + k, limits) {
          if k > 0 { assert StandsAt(c, db, id, rest[k - 1], i + 1 + (k - 1), limits); }
        }
      }
    }
  }

  lemma {:induction false} ReadLength(c: Codec, db: Db, id: DropId, i: nat, count: nat, limits: Limits)
    requires i <= count && ReadFrom(c, db, id, i, count, limits).Ok?
    ensures |ReadFrom(c, db, id, i, count, limits).value| == count - i
    decreases count - i
  {
    if i < count { ReadLength(c, db, id, i + 1, count, limits); }
  }

  /** A stage reads as these records exactly when its head names the drop and their number, and each of them stands. */
  lemma StageReadIff(c: Codec, db: Db, id: DropId, records: seq<Record>, limits: Limits)
    ensures ReadStage(c, db, id, limits) == Ok(records) <==>
            && StageMeta(id) in db && db[StageMeta(id)] == MetaValue(id, |records|)
            && |records| <= limits.maxRecords
            && forall k :: 0 <= k < |records| ==> StandsAt(c, db, id, records[k], k, limits)
  {
    ReadFromIff(c, db, id, 0, records, limits);
    if ReadStage(c, db, id, limits) == Ok(records) { ReadLength(c, db, id, 0, db[StageMeta(id)].count, limits); }
  }

  /** A stage reads back, exactly when the limits allow it, as the records last staged. */
  lemma StageReadsBack(c: Codec, s: State, id: DropId, limits: Limits)
    requires Lawful(c) && Valid(c, s) && StageMeta(id) in s.db
    ensures id in s.last
    ensures ReadStage(c, s.db, id, limits).Ok? <==> WithinLimits(c, s.last[id], limits)
    ensures ReadStage(c, s.db, id, limits).Ok? ==> ReadStage(c, s.db, id, limits).value == s.last[id]
  {
    assert Consistent(c, s, id);
    assert StageMeta(id) in StageKeys(id, |s.last[id]|);
    ReadFromIs(c, s.db, id, s.last[id], 0, limits);
    assert s.last[id][0..] == s.last[id];
  }

  /**
   Resuming a stage within limits is importing again the records last staged: the same store, the
   same answer. Without a stage, or over the limits, it changes nothing.
   */
  lemma ResumeIsReimport(c: Codec, dom: Domain, s: State, id: DropId, limits: Limits, f: Faults)
    requires Lawful(c) && Valid(c, s)
    ensures Resumable(c, s, id, limits) ==>
              && Resumed(c, dom, s.db, id, limits, f) == Imported(c, dom, s.db, id, s.last[id], f)
              && After(c, dom, s, Resume(id, limits, f)) == After(c, dom, s, Import(id, s.last[id], f))
    ensures !Resumable(c, s, id, limits) ==>
              After(c, dom, s, Resume(id, limits, f)) == s
  {
    assert Consistent(c, s, id);
    if StageMeta(id) in s.db {
      StageReadsBack(c, s, id, limits);
      assert s.last[id := s.last[id]] == s.last;
    }
  }

  // ---------- Runs ----------

  lemma StepKeeps(c: Codec, dom: Domain, s: State, step: Step)
    requires Lawful(c) && Valid(c, s)
    ensures Valid(c, After(c, dom, s, step))
  {
    match step
    case Import(id, records, f) => ImportKeeps(c, dom, s, id, records, f);
    case Resume(id, limits, f) =>
      ResumeIsReimport(c, dom, s, id, limits, f);
      assert Consistent(c, s, id);
      if StageMeta(id) in s.db { ImportKeeps(c, dom, s, id, s.last[id], f); }
    case Discard(id, lands) =>
      forall other ensures Consistent(c, After(c, dom, s, step), other) {
        assert Consistent(c, s, other);
        UnstagedConsistent(c, s, id, other);
      }
  }

  /** From an empty store, every run keeps receipts and stages apart and every stage whole. */
  lemma {:induction false} RunsKeep(c: Codec, dom: Domain, s: State, steps: seq<Step>)
    requires Lawful(c) && Valid(c, s)
    ensures Valid(c, AfterAll(c, dom, s, steps))
    decreases |steps|
  {
    if steps != [] {
      StepKeeps(c, dom, s, steps[0]);
      RunsKeep(c, dom, After(c, dom, s, steps[0]), steps[1..]);
    }
  }

  lemma EmptyIsValid(c: Codec)
    ensures Valid(c, State(map[], map[]))
  {
    forall id ensures Consistent(c, State(map[], map[]), id) {
    }
  }

  // ---------- Effects land at most once ----------

  lemma UnstagedKeepsLive(db: Db, id: DropId)
    ensures LiveOf(Unstaged(db, id)) == LiveOf(db)
  {
  }

  lemma StagedKeepsLive(c: Codec, db: Db, id: DropId, records: seq<Record>)
    ensures LiveOf(Staged(c, db, id, records)) == LiveOf(db)
  {
  }

  /** One import: receipts stay, and live data moves only together with a new receipt. */
  lemma ImportEffects(c: Codec, dom: Domain, db: Db, id: DropId, records: seq<Record>, f: Faults, other: DropId)
    ensures var next := Imported(c, dom, db, id, records, f).db;
            && (ReceiptKey(other) in db ==>
                ReceiptKey(other) in next && next[ReceiptKey(other)] == db[ReceiptKey(other)])
            && (LiveOf(next) != LiveOf(db) ==> ReceiptKey(id) !in db && ReceiptKey(id) in next)
            && (ReceiptKey(other) in next && ReceiptKey(other) !in db ==>
                other == id && Imported(c, dom, db, id, records, f).result.Ok?)
  {
    var next := Imported(c, dom, db, id, records, f);
    UnstagedKeepsLive(db, id);
    StagedKeepsLive(c, db, id, records);
    if next.result.Ok? && !next.result.value.receiptHit {
      CommittedKeys(db, id, dom.effects(LiveOf(db), records).value, dom.admit(LiveOf(db), records).value,
                    ReceiptKey(other));
    }
  }

  lemma StepEffects(c: Codec, dom: Domain, s: State, step: Step, other: DropId)
    ensures var t := After(c, dom, s, step);
            && (ReceiptKey(other) in s.db ==>
                ReceiptKey(other) in t.db && t.db[ReceiptKey(other)] == s.db[ReceiptKey(other)])
            && (LiveOf(t.db) != LiveOf(s.db) ==> ReceiptKey(step.id) !in s.db && ReceiptKey(step.id) in t.db)
  {
    match step
    case Import(id, records, f) => ImportEffects(c, dom, s.db, id, records, f, other);
    case Resume(id, limits, f) =>
      var records := ReadStage(c, s.db, id, limits);
      if records.Ok? { ImportEffects(c, dom, s.db, id, records.value, f, other); }
    case Discard(id, _) => UnstagedKeepsLive(s.db, id);
  }

  lemma {:induction false} ReceiptsStay(c: Codec, dom: Domain, s: State, steps: seq<Step>, id: DropId)
    requires ReceiptKey(id) in s.db
    ensures ReceiptKey(id) in AfterAll(c, dom, s, steps).db
    ensures AfterAll(c, dom, s, steps).db[ReceiptKey(id)] == s.db[ReceiptKey(id)]
    decreases |steps|
  {
    if steps != [] {
      StepEffects(c, dom, s, steps[0], id);
      ReceiptsStay(c, dom, After(c, dom, s, steps[0]), steps[1..], id);
    }
  }

  /**
   Once a step of a drop has moved live data, no later step of that drop moves any: after
   `first`, whatever happens in `between`, the step `second` for the same drop leaves live data
   alone and answers from the receipt.
   */
  lemma EffectsLandOnce(c: Codec, dom: Domain, s: State, first: Step, between: seq<Step>, second: Step)
    requires first.id == second.id
    requires LiveOf(After(c, dom, s, first).db) != LiveOf(s.db)
    ensures var t := AfterAll(c, dom, After(c, dom, s, first), between);
            && ReceiptKey(second.id) in t.db
            && LiveOf(After(c, dom, t, second).db) == LiveOf(t.db)
  {
    StepEffects(c, dom, s, first, first.id);
    ReceiptsStay(c, dom, After(c, dom, s, first), between, first.id);
    StepEffects(c, dom, AfterAll(c, dom, After(c, dom, s, first), between), second, first.id);
  }

  /** Importing a drop that has a receipt: live data and receipt stay, and the report repeats the receipt. */
  lemma ReceiptedImport(c: Codec, dom: Domain, s: State, id: DropId, records: seq<Record>, f: Faults)
    requires Valid(c, s) && ReceiptKey(id) in s.db && f.discardLands
    ensures var receipt := s.db[ReceiptKey(id)];
            receipt.ReceiptValue?
            && Imported(c, dom, s.db, id, records, f)
               == Outcome(s.db, Ok(ImportReport(id, Counts(receipt.operations, receipt.others), true)))
  {
    assert Consistent(c, s, id);
    assert Unstaged(s.db, id) == s.db;
  }

  // ---------- What lands, key by key ----------

  /** A live name holds these bytes, or nothing. */
  ghost predicate LiveIs(db: Db, n: nat, value: Option<Bytes>) {
    match value
    case Some(bytes) => Live(n) in db && db[Live(n)] == Raw(bytes)
    case None => Live(n) !in db
  }

  ghost predicate SameAt(a: Db, b: Db, k: Key) {
    (k in a <==> k in b) && (k in a ==> a[k] == b[k])
  }

  /** The last of the effects to name `n` is the one at `i`. */
  ghost predicate LastNaming(writes: seq<LiveWrite>, n: nat, i: nat) {
    i < |writes| && writes[i].name == n && forall j :: i < j < |writes| ==> writes[j].name != n
  }

  ghost predicate Unnamed(writes: seq<LiveWrite>, n: nat) {
    forall i :: 0 <= i < |writes| ==> writes[i].name != n
  }

  /** Whoever names a live key last decides it, and a key nobody names keeps its value. */
  ghost predicate Landed(before: Db, after: Db, writes: seq<LiveWrite>, n: nat) {
    && (forall i: nat :: LastNaming(writes, n, i) ==> LiveIs(after, n, writes[i].value))
    && (Unnamed(writes, n) ==> SameAt(before, after, Live(n)))
  }

  lemma OneWriteLands(db: Db, w: LiveWrite, n: nat)
    ensures var next := ApplyAll(db, LiveOps([w]));
            if w.name == n then LiveIs(next, n, w.value) else SameAt(db, next, Live(n))
  {
    var ops := LiveOps([w]);
    assert |ops| == 1 && ops[1..] == [];
    assert ApplyAll(db, ops) == ApplyOne(db, ops[0]);
  }

  lemma OneMoreLands(db: Db, mid: Db, next: Db, front: seq<LiveWrite>, last: LiveWrite, n: nat)
    requires Landed(db, mid, front, n)
    requires if last.name == n then LiveIs(next, n, last.value) else SameAt(mid, next, Live(n))
    ensures Landed(db, next, front + [last], n)
  {
    var writes := front + [last];
    forall i: nat | LastNaming(writes, n, i) ensures LiveIs(next, n, writes[i].value) {
      if i < |front| {
        assert writes[|front|] == last;
        assert forall j :: i < j < |front| ==> writes[j] == front[j];
        assert LastNaming(front, n, i);
      }
    }
    if Unnamed(writes, n) {
      assert writes[|front|] == last;
      assert forall j :: 0 <= j < |front| ==> writes[j] == front[j];
      assert Unnamed(front, n);
    }
  }

  lemma LiveOpsAppend(front: seq<LiveWrite>, last: LiveWrite)
    ensures LiveOps(front + [last]) == LiveOps(front) + LiveOps([last])
  {
  }

  lemma {:induction false} WritesLand(db: Db, writes: seq<LiveWrite>, n: nat)
    ensures Landed(db, ApplyAll(db, LiveOps(writes)), writes, n)
    decreases |writes|
  {
    if writes == [] {
      assert LiveOps(writes) == [];
    } else {
      var front, last := writes[..|writes| - 1], writes[|writes| - 1];
      assert writes == front + [last];
      var mid, next := ApplyAll(db, LiveOps(front)), ApplyAll(db, LiveOps(writes));
      assert next == ApplyAll(mid, LiveOps([last])) by {
        LiveOpsAppend(front, last);
        ApplyAppend(db, LiveOps(front), LiveOps([last]));
      }
      OneWriteLands(mid, last, n);
      WritesLand(db, front, n);
      OneMoreLands(db, mid, next, front, last, n);
    }
  }

  /**
   An import that commits: every live name is what the last effect naming it says, or untouched;
   the receipt says what was admitted; the stage is gone; and nothing else moved.
   */
  lemma CommitIsItsEffects(c: Codec, dom: Domain, db: Db, id: DropId, records: seq<Record>, f: Faults, n: nat, k: Key)
    requires var r := Imported(c, dom, db, id, records, f).result; r.Ok? && !r.value.receiptHit
    ensures var next := Imported(c, dom, db, id, records, f).db;
            var effects := dom.effects(LiveOf(db), records);
            var counts := dom.admit(LiveOf(db), records);
            && effects.Some? && counts.Some? && ReceiptKey(id) !in db
            && Landed(db, next, effects.value, n)
            && ReceiptKey(id) in next
            && next[ReceiptKey(id)] == ReceiptValue(counts.value.operations, counts.value.others)
            && Imported(c, dom, db, id, records, f).result.value.counts == counts.value
            && (StagesFor(k, id) ==> k !in next)
            && (!StagesFor(k, id) && !k.Live? && k != ReceiptKey(id) ==> SameAt(db, next, k))
  {
    var effects := dom.effects(LiveOf(db), records).value;
    var start := Unstaged(db, id);
    WritesLand(start, effects, n);
    assert SameAt(db, start, Live(n));
    if !k.Live? { LiveWritesKeepTheRest(start, LiveOps(effects), k); }
  }

  /** The import got as far as its staging batch. */
  ghost predicate Reaches(dom: Domain, db: Db, id: DropId, records: seq<Record>, f: Faults) {
    ReceiptKey(id) !in db && dom.admit(LiveOf(db), records).Some? && f.stageLands
  }

  /** Which error an import ends with, exactly. */
  lemma ImportFailsFor(c: Codec, dom: Domain, db: Db, id: DropId, records: seq<Record>, f: Faults)
    ensures var r := Imported(c, dom, db, id, records, f).result;
            && (r == Err(StagingCodec) <==> ReceiptKey(id) in db && !db[ReceiptKey(id)].ReceiptValue?)
            && (r == Err(Refused) <==> ReceiptKey(id) !in db && dom.admit(LiveOf(db), records).None?)
            && (r == Err(Rejected) <==>
                  Reaches(dom, db, id, records, f) && dom.effects(LiveOf(db), records).None?)
            && (r == Err(Backend) <==>
                  || (ReceiptKey(id) in db && db[ReceiptKey(id)].ReceiptValue? && !f.discardLands)
                  || (ReceiptKey(id) !in db && dom.admit(LiveOf(db), records).Some? && !f.stageLands)
                  || (Reaches(dom, db, id, records, f) && dom.effects(LiveOf(db), records).Some? && !f.commitLands))
            && (r.Err? ==> r.error in {StagingCodec, Refused, Rejected, Backend})
  {
  }

  /**
   An import that does not commit leaves every live name as it was. A receipt hit clears what is
   left of the stage; a failure leaves either the store as it was or the whole stage in it.
   */
  lemma OtherwiseLiveStays(c: Codec, dom: Domain, db: Db, id: DropId, records: seq<Record>, f: Faults, k: Key)
    requires var r := Imported(c, dom, db, id, records, f).result; r.Ok? ==> r.value.receiptHit
    ensures var out := Imported(c, dom, db, id, records, f);
            if out.result.Ok? then if StagesFor(k, id) then k !in out.db else SameAt(db, out.db, k)
            else if Reaches(dom, db, id, records, f)
            then if StagesFor(k, id) then k in out.db <==> k in StageKeys(id, |records|) else SameAt(db, out.db, k)
            else out.db == db
  {
  }

  /** The domain is asked about the live names and nothing else. */
  lemma DomainSeesLive(db: Db, k: Key)
    ensures k.Live? ==> SameAt(db, LiveOf(db), k)
    ensures !k.Live? ==> k !in LiveOf(db)
  {
  }

  /**
   Once an import has committed, every later import of that drop, whatever came between and
   whatever records it brings, repeats the committed counts and leaves every live name alone.
   */
  lemma CommittedForGood(c: Codec, dom: Domain, s: State, id: DropId, records: seq<Record>, f: Faults,
                         between: seq<Step>, again: seq<Record>, g: Faults, n: nat)
    requires var r := Imported(c, dom, s.db, id, records, f).result; r.Ok? && !r.value.receiptHit
    requires g.discardLands
    ensures var t := AfterAll(c, dom, After(c, dom, s, Import(id, records, f)), between);
            var repeated := Imported(c, dom, t.db, id, again, g);
            && repeated.result
               == Ok(ImportReport(id, Imported(c, dom, s.db, id, records, f).result.value.counts, true))
            && SameAt(t.db, repeated.db, Live(n))
  {
    CommitIsItsEffects(c, dom, s.db, id, records, f, n, ReceiptKey(id));
    ReceiptsStay(c, dom, After(c, dom, s, Import(id, records, f)), between, id);
  }
}

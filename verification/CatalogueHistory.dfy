/**
 What holds of every history of catalogue operations: the fence freezes, identity
 is kept, incarnations stay unique, every file a crash could leave is a whole
 table, and without failures the run is the plain composition of its operations.
 */
module CatalogueHistory {
  import opened Wire
  import opened Envelope
  import opened Catalogue
  import opened KvCodec
  import opened RecordFormat
  import opened Disk
  import opened KvStore
  import opened PersistModel
  import opened Persister
  import opened HalfWritten
  import opened CatalogueRun

  lemma StepAt(crc: Checksum, ops: seq<Op>, results: seq<Status>, hist: seq<Snapshot>, k: nat)
    requires IsHistory(crc, ops, results, hist) && k < |ops|
    ensures Step(crc, ops[k], results[k], hist[k], hist[k + 1])
  {
  }

  // ----- The fence

  lemma FencedStep(crc: Checksum, op: Op, s: Status, a: Snapshot, b: Snapshot)
    requires Step(crc, op, s, a, b)
    ensures a.fenced ==> b.fenced && FencedOff(b, a)
    ensures s.Fenced? ==> b.fenced
    ensures b.fenced ==> a.fenced || s.Fenced?
    ensures a.fenced ==> Pointless(op) || s.Fenced?
  {
    hide Consistent, Rewrites, Memory, Written;
  }

  /** From the first durability error on, no operation, closing included, changes memory or the disk. */
  lemma {:induction false} FenceFreezes(crc: Checksum, ops: seq<Op>, results: seq<Status>, hist: seq<Snapshot>, k: nat,
                                        m: nat)
    requires IsHistory(crc, ops, results, hist) && k < |ops| && results[k].Fenced? && k < m < |hist|
    ensures hist[m].fenced && FencedOff(hist[m], hist[k + 1])
    ensures k + 1 < m ==> Pointless(ops[m - 1]) || results[m - 1].Fenced?
    decreases m
  {
    hide Step;
    StepAt(crc, ops, results, hist, m - 1);
    FencedStep(crc, ops[m - 1], results[m - 1], hist[m - 1], hist[m]);
    if k + 1 < m {
      FenceFreezes(crc, ops, results, hist, k, m - 1);
    }
  }

  /** A persister is fenced only by a durability error it has reported. */
  lemma {:induction false} FencedWasReported(crc: Checksum, ops: seq<Op>, results: seq<Status>, hist: seq<Snapshot>,
                                             m: nat)
    returns (k: nat)
    requires IsHistory(crc, ops, results, hist) && m < |hist| && hist[m].fenced && !hist[0].fenced
    ensures k < m && results[k].Fenced?
    decreases m
  {
    hide Step;
    StepAt(crc, ops, results, hist, m - 1);
    FencedStep(crc, ops[m - 1], results[m - 1], hist[m - 1], hist[m]);
    if results[m - 1].Fenced? {
      k := m - 1;
    } else {
      k := FencedWasReported(crc, ops, results, hist, m - 1);
    }
  }

  // ----- Unique incarnations

  lemma OutcomeIsGood(s: Status, batch: Batch, data: Table, data0: Table)
    requires BatchOutcome(s, batch, data, data0) && Good(data0) && (s != Fenced(false) || !HandsOver(data0, batch))
    ensures Good(data)
  {
    hide Decodes, Unique, ApplyBatch, WellFormedBatch, DifferOnlyOn, OldOrNew, HandsOver;
    if s == Fenced(false) {
      MixIsGood(data, data0, batch);
    }
  }

  /** Not a batch that hands an incarnation over, left half written by failing writes. */
  ghost predicate Harmless(op: Op, s: Status, a: Snapshot) {
    || s != Fenced(false) || a.fenced || op.UpdateMetadata?
    || (Decodes(a.data) && BatchOf(op, a.data).Some? && !HandsOver(a.data, BatchOf(op, a.data).value))
  }

  lemma StepKeepsGood(crc: Checksum, op: Op, s: Status, a: Snapshot, b: Snapshot)
    requires Step(crc, op, s, a, b) && Good(a.data) && Harmless(op, s, a)
    ensures Good(b.data)
  {
    hide Consistent, Rewrites, Written, Flags, BatchOutcome, UpdateOutcome, Good, BatchOf, HandsOver;
    if !Pointless(op) && !a.fenced {
      if op.UpdateMetadata? {
        UpdateOutcomeIsGood(s, op.update, b.data, a.data);
      } else if !op.Sync? && !op.Close? && BatchOf(op, a.data).Some? {
        OutcomeIsGood(s, BatchOf(op, a.data).value, b.data, a.data);
      }
    }
  }

  /**
   No two stored records share an incarnation, ever, unless a batch that hands an
   incarnation over was left half written: its writes failed and putting memory
   back failed too.
   */
  lemma {:induction false} UniqueThroughout(crc: Checksum, ops: seq<Op>, results: seq<Status>, hist: seq<Snapshot>,
                                            m: nat)
    requires IsHistory(crc, ops, results, hist) && m < |hist| && Good(hist[0].data)
    requires forall k :: 0 <= k < m ==> Harmless(ops[k], results[k], hist[k])
    ensures Good(hist[m].data)
    decreases m
  {
    hide Step, Good, Harmless;
    if m > 0 {
      UniqueThroughout(crc, ops, results, hist, m - 1);
      StepAt(crc, ops, results, hist, m - 1);
      StepKeepsGood(crc, ops[m - 1], results[m - 1], hist[m - 1], hist[m]);
    }
  }

  lemma FencedFromThen(crc: Checksum, ops: seq<Op>, results: seq<Status>, hist: seq<Snapshot>, k: nat, m: nat)
    requires IsHistory(crc, ops, results, hist) && k < m < |hist|
    ensures results[k].Fenced? ==> hist[m].fenced
  {
    hide Step;
    if results[k].Fenced? {
      FenceFreezes(crc, ops, results, hist, k, m);
    }
  }

  /** In front of the fence no batch has been left half written. */
  lemma GoodInFrontOfTheFence(crc: Checksum, ops: seq<Op>, results: seq<Status>, hist: seq<Snapshot>, m: nat)
    requires IsHistory(crc, ops, results, hist) && m < |hist| && Good(hist[0].data) && !hist[m].fenced
    ensures Good(hist[m].data)
  {
    hide Step, Good;
    forall k | 0 <= k < m ensures results[k].Fenced? ==> hist[m].fenced {
      FencedFromThen(crc, ops, results, hist, k, m);
    }
    UniqueThroughout(crc, ops, results, hist, m);
  }

  // ----- Identity

  /** An operation that is not a batch. */
  predicate KeepsIdentity(op: Op) {
    op.UpdateMetadata? || op.Sync? || op.Close? || Pointless(op)
  }

  /** The records updated by operations `i` to `j`. */
  function UpdatedNames(ops: seq<Op>, i: nat, j: nat): set<Name>
    requires i <= j <= |ops|
  {
    set k | i <= k < j && ops[k].UpdateMetadata? :: ops[k].update.name
  }

  lemma StepKeepsIdentity(crc: Checksum, op: Op, s: Status, a: Snapshot, b: Snapshot)
    requires Step(crc, op, s, a, b) && Good(a.data) && KeepsIdentity(op)
    ensures OnlyMetadata(a.data, b.data, if op.UpdateMetadata? then {op.update.name} else {})
  {
    hide Consistent, Rewrites, Written, Flags, UpdateOutcome, Decodes, Unique, BatchOf;
    NothingChanged(a.data);
    if !Pointless(op) && !a.fenced && op.UpdateMetadata? {
      UpdateOutcomeIsGood(s, op.update, b.data, a.data);
    }
  }

  lemma NothingChanged(data: Table)
    requires Good(data)
    ensures forall names :: OnlyMetadata(data, data, names)
  {
  }

  lemma OnlyMetadataTransitive(a: Table, b: Table, c: Table, ns: set<Name>, ms: set<Name>)
    requires Good(a) && OnlyMetadata(a, b, ns) && OnlyMetadata(b, c, ms)
    ensures OnlyMetadata(a, c, ns + ms)
  {
    hide DecodeRecord, Unique;
  }

  /**
   Between batches every record keeps its name, incarnation, creation time,
   committed checkpoint and degraded reason, and a record that no update names
   keeps its bytes, whatever fails and whether or not it could be put back.
   */
  lemma {:induction false} UpdatesKeepIdentity(crc: Checksum, ops: seq<Op>, results: seq<Status>, hist: seq<Snapshot>,
                                               i: nat, j: nat)
    requires IsHistory(crc, ops, results, hist) && i <= j < |hist| && Good(hist[i].data)
    requires forall k :: i <= k < j ==> KeepsIdentity(ops[k])
    ensures OnlyMetadata(hist[i].data, hist[j].data, UpdatedNames(ops, i, j))
    decreases j
  {
    hide Step, Decodes, Unique, IdentityKept;
    if i == j {
      NothingChanged(hist[i].data);
    } else {
      UpdatesKeepIdentity(crc, ops, results, hist, i, j - 1);
      StepAt(crc, ops, results, hist, j - 1);
      StepKeepsIdentity(crc, ops[j - 1], results[j - 1], hist[j - 1], hist[j]);
      var last := if ops[j - 1].UpdateMetadata? then {ops[j - 1].update.name} else {};
      OnlyMetadataTransitive(hist[i].data, hist[j - 1].data, hist[j].data, UpdatedNames(ops, i, j - 1), last);
      assert UpdatedNames(ops, i, j) == UpdatedNames(ops, i, j - 1) + last;
    }
  }

  /** An applied update is what is read afterwards, until the next batch or the next update of that record. */
  lemma UpdateIsRead(crc: Checksum, ops: seq<Op>, results: seq<Status>, hist: seq<Snapshot>, k: nat, m: nat)
    requires IsHistory(crc, ops, results, hist) && k < m < |hist| && Good(hist[k].data)
    requires ops[k].UpdateMetadata? && results[k] == Applied
    requires forall j :: k < j < m ==> KeepsIdentity(ops[j])
    requires forall j :: k < j < m && ops[j].UpdateMetadata? ==> ops[j].update.name != ops[k].update.name
    ensures UpdateSeen(ops[k].update, hist[k].data, hist[m].data)
  {
    hide Step, Decodes, Unique, DecodeRecord, MetadataTaken, IdentityKept;
    StepAt(crc, ops, results, hist, k);
    AppliedMeans(crc, ops[k], results[k], hist[k], hist[k + 1]);
    StepKeepsGood(crc, ops[k], results[k], hist[k], hist[k + 1]);
    UpdatesKeepIdentity(crc, ops, results, hist, k + 1, m);
    assert ops[k].update.name !in UpdatedNames(ops, k + 1, m);
  }

  // ----- What success means

  ghost predicate IsStored(data: Table, name: Name, r: Record) {
    name in data && DecodeRecord(name, data[name]).Some? && RecordOf(data, name) == r
  }

  /** Only the named records may differ. */
  ghost predicate OthersKept(before: Table, after: Table, names: set<Name>) {
    forall n :: n !in names ==> (n in after <==> n in before) && (n in before ==> after[n] == before[n])
  }

  /** What each applied operation leaves in memory, as decoded records. */
  ghost predicate Achieved(op: Op, before: Table, after: Table) {
    match op
    case Create(r) => r.name !in before && IsStored(after, r.name, r) && OthersKept(before, after, {r.name})
    case Apply(batch) =>
      && batch != map[] && OthersKept(before, after, batch.Keys)
      && forall n :: n in batch ==> if batch[n].None? then n !in after else IsStored(after, n, batch[n].value)
    case Rename(oldName, next) =>
      && oldName != next.name && oldName !in after && IsStored(after, next.name, next)
      && OthersKept(before, after, {oldName, next.name})
    case Replace(name, r) => IsStored(after, name, r) && OthersKept(before, after, {name})
    case Delete(name) => name !in after && OthersKept(before, after, {name})
    case UpdateMetadata(u) => UpdateSeen(u, before, after) && OthersKept(before, after, {u.name})
    case Sync => after == before
    case Close => after == before
  }

  lemma BatchAchieved(batch: Batch, data: Table)
    requires Acceptable(data, batch)
    ensures OthersKept(data, ApplyBatch(data, batch), batch.Keys)
    ensures forall n :: n in batch ==>
              if batch[n].None? then n !in ApplyBatch(data, batch)
              else IsStored(ApplyBatch(data, batch), n, batch[n].value)
  {
    hide DecodeRecord, EncodeRecord, ValidSessionName;
    var next := ApplyBatch(data, batch);
    forall n | n in batch && batch[n].Some? ensures IsStored(next, n, batch[n].value) {
      AppliedEntries(data, batch, n);
    }
  }

  /** Every applied operation did exactly what it stands for. */
  lemma AppliedMeans(crc: Checksum, op: Op, s: Status, a: Snapshot, b: Snapshot)
    requires Step(crc, op, s, a, b) && s == Applied
    ensures Achieved(op, a.data, b.data)
  {
    hide Consistent, Rewrites, Written, Durability, Acceptable, ApplyBatch, WellFormedBatch, UpdateSeen, IsStored;
    hide Updates, Good, DifferOnlyOn, OldOrNew;
    var batch := BatchOf(op, a.data);
    if op.UpdateMetadata? {
      UpdateOnlyTouches(a.data, op.update);
    } else if batch.Some? {
      NotEmpty(a.data, batch.value);
      BatchAchieved(batch.value, a.data);
      NamesOf(op, a.data);
    }
  }

  lemma UpdateOnlyTouches(data: Table, u: Update)
    ensures OthersKept(data, UpdateTable(data, u), {u.name})
  {
  }

  lemma NotEmpty(data: Table, batch: Batch)
    ensures Acceptable(data, batch) ==> batch != map[]
  {
  }

  lemma NamesOf(op: Op, data: Table)
    requires BatchOf(op, data).Some?
    ensures var batch := BatchOf(op, data).value;
            match op
            case Create(r) => r.name !in data && r.name in batch && batch[r.name] == Some(r) && batch.Keys == {r.name}
            case Rename(oldName, next) =>
              && oldName in batch && batch[oldName] == None && next.name in batch && batch[next.name] == Some(next)
              && batch.Keys == {oldName, next.name}
            case Replace(name, r) => name in batch && batch[name] == Some(r) && batch.Keys == {name}
            case Delete(name) => name in batch && batch[name] == None && batch.Keys == {name}
            case _ => true
  {
  }

  // ----- The file

  /** A file that may survive is one from before the run or the whole table some operation wrote. */
  ghost predicate WholeTable(crc: Checksum, ops: seq<Op>, hist: seq<Snapshot>, m: nat, survivor: Option<bytes>)
    requires |hist| == |ops| + 1 && m <= |ops|
  {
    || survivor in hist[0].disk.survivors
    || exists k :: 0 <= k < m && !hist[k].fenced && survivor == Some(EncodeFile(crc, Written(ops[k], hist[k].data)))
  }

  ghost predicate AllWhole(crc: Checksum, ops: seq<Op>, hist: seq<Snapshot>, m: nat, d: DiskState)
    requires |hist| == |ops| + 1 && m <= |ops|
  {
    Sound(d) && forall survivor :: survivor in d.survivors ==> WholeTable(crc, ops, hist, m, survivor)
  }

  lemma RewrittenIsWhole(crc: Checksum, ops: seq<Op>, hist: seq<Snapshot>, m: nat, d: DiskState)
    requires |hist| == |ops| + 1 && m < |ops| && AllWhole(crc, ops, hist, m, hist[m].disk)
    requires Replacing(d, hist[m].disk, EncodeFile(crc, Written(ops[m], hist[m].data)))
    requires hist[m].fenced ==> d == hist[m].disk
    ensures AllWhole(crc, ops, hist, m + 1, d)
  {
    hide EncodeFile, Written;
    forall survivor | survivor in d.survivors ensures WholeTable(crc, ops, hist, m + 1, survivor) {
      if survivor in hist[m].disk.survivors {
        assert WholeTable(crc, ops, hist, m, survivor);
      } else {
        assert !hist[m].fenced;
      }
    }
  }

  lemma StepRewrites(crc: Checksum, op: Op, s: Status, a: Snapshot, b: Snapshot)
    requires Step(crc, op, s, a, b)
    ensures a.trace <= b.trace && Replacing(b.disk, a.disk, EncodeFile(crc, Written(op, a.data)))
    ensures AllReplacing(b.trace, |a.trace|, a.disk, EncodeFile(crc, Written(op, a.data)))
    ensures a.fenced ==> b.disk == a.disk && b.trace == a.trace
  {
    hide Consistent, Memory, Written, EncodeFile, Replacing, AllReplacing;
  }

  /**
   At every moment of every run a crash leaves a file from before the run or a
   whole table that some operation was writing, and never a mixture.
   */
  lemma {:induction false} OnlyWholeTablesSurvive(crc: Checksum, ops: seq<Op>, results: seq<Status>,
                                                  hist: seq<Snapshot>, m: nat)
    requires IsHistory(crc, ops, results, hist) && m < |hist| && Sound(hist[0].disk)
    ensures AllWhole(crc, ops, hist, m, hist[m].disk)
    ensures hist[0].trace <= hist[m].trace
    ensures forall i :: |hist[0].trace| <= i < |hist[m].trace| ==> AllWhole(crc, ops, hist, m, hist[m].trace[i])
    decreases m
  {
    hide Step, Replacing, AllWhole, EncodeFile, Written;
    if m == 0 {
      WholeAtFirst(crc, ops, hist);
    } else {
      var n := m - 1;
      OnlyWholeTablesSurvive(crc, ops, results, hist, n);
      StepAt(crc, ops, results, hist, n);
      StepRewrites(crc, ops[n], results[n], hist[n], hist[m]);
      RewrittenIsWhole(crc, ops, hist, n, hist[m].disk);
      forall i | |hist[0].trace| <= i < |hist[m].trace| ensures AllWhole(crc, ops, hist, m, hist[m].trace[i]) {
        if i < |hist[n].trace| {
          assert hist[m].trace[i] == hist[n].trace[i];
          WholeStaysWhole(crc, ops, hist, n, hist[n].trace[i]);
        } else {
          assert !hist[n].fenced;
          RewrittenIsWhole(crc, ops, hist, n, hist[m].trace[i]);
        }
      }
    }
  }

  lemma WholeAtFirst(crc: Checksum, ops: seq<Op>, hist: seq<Snapshot>)
    requires |hist| == |ops| + 1 && Sound(hist[0].disk)
    ensures AllWhole(crc, ops, hist, 0, hist[0].disk)
  {
  }

  lemma WholeStaysWhole(crc: Checksum, ops: seq<Op>, hist: seq<Snapshot>, m: nat, d: DiskState)
    requires |hist| == |ops| + 1 && m < |ops| && AllWhole(crc, ops, hist, m, d)
    ensures AllWhole(crc, ops, hist, m + 1, d)
  {
    hide EncodeFile, Written, Sound;
    forall survivor | survivor in d.survivors ensures WholeTable(crc, ops, hist, m + 1, survivor) {
      assert WholeTable(crc, ops, hist, m, survivor);
    }
  }

  /** Whatever survives a crash decodes to a catalogue without duplicate incarnations. */
  ghost predicate FilesGood(crc: Checksum, d: DiskState) {
    && !d.torn
    && forall survivor :: survivor in d.survivors && survivor.Some? ==>
         DecodeFile(crc, survivor.value).Some? && Good(DecodeFile(crc, survivor.value).value)
  }

  lemma WrittenIsGood(op: Op, data: Table)
    requires Good(data)
    ensures Good(Written(op, data))
  {
    hide Decodes, Unique, ApplyBatch, WellFormedBatch, Updates;
  }

  lemma WholeFilesAreGood(crc: Checksum, ops: seq<Op>, results: seq<Status>, hist: seq<Snapshot>, m: nat, d: DiskState)
    requires IsHistory(crc, ops, results, hist) && m < |hist| && AllWhole(crc, ops, hist, m, d)
    requires Good(hist[0].data) && FilesGood(crc, hist[0].disk)
    requires forall k :: 0 <= k < m && !hist[k].fenced ==> FileFits(Written(ops[k], hist[k].data))
    ensures FilesGood(crc, d)
  {
    hide Step, EncodeFile, DecodeFile, Good, Written, FileFits;
    forall survivor | survivor in d.survivors && survivor.Some?
      ensures DecodeFile(crc, survivor.value).Some? && Good(DecodeFile(crc, survivor.value).value)
    {
      assert WholeTable(crc, ops, hist, m, survivor);
      if survivor !in hist[0].disk.survivors {
        var k :| 0 <= k < m && !hist[k].fenced && survivor == Some(EncodeFile(crc, Written(ops[k], hist[k].data)));
        GoodInFrontOfTheFence(crc, ops, results, hist, k);
        WrittenIsGood(ops[k], hist[k].data);
        EncodedHolds(crc, Written(ops[k], hist[k].data));
      }
    }
  }

  /** So every file a crash could leave is readable and free of duplicates, while what is written fits the format. */
  lemma FilesGoodThroughout(crc: Checksum, ops: seq<Op>, results: seq<Status>, hist: seq<Snapshot>, m: nat)
    requires IsHistory(crc, ops, results, hist) && m < |hist| && Sound(hist[0].disk)
    requires Good(hist[0].data) && FilesGood(crc, hist[0].disk)
    requires forall k :: 0 <= k < m && !hist[k].fenced ==> FileFits(Written(ops[k], hist[k].data))
    ensures FilesGood(crc, hist[m].disk)
    ensures forall i :: |hist[0].trace| <= i < |hist[m].trace| ==> FilesGood(crc, hist[m].trace[i])
  {
    hide Step, AllWhole, FilesGood, Good, Written, FileFits;
    OnlyWholeTablesSurvive(crc, ops, results, hist, m);
    WholeFilesAreGood(crc, ops, results, hist, m, hist[m].disk);
    forall i | |hist[0].trace| <= i < |hist[m].trace| ensures FilesGood(crc, hist[m].trace[i]) {
      WholeFilesAreGood(crc, ops, results, hist, m, hist[m].trace[i]);
    }
  }

  // ----- What is acknowledged survives

  /** Operation `k` succeeded and wrote the file. */
  ghost predicate SyncedBy(ops: seq<Op>, results: seq<Status>, hist: seq<Snapshot>, k: nat)
    requires |results| == |ops| && |hist| == |ops| + 1 && k < |ops|
  {
    results[k] == Applied && Syncs(ops[k], hist[k]) && Writes(ops[k], hist[k])
  }

  /** A persister that can still write: neither fenced nor closed. */
  predicate Active(a: Snapshot) {
    !a.fenced && !a.closed
  }

  lemma StepOnDisk(crc: Checksum, op: Op, s: Status, a: Snapshot, b: Snapshot)
    requires Step(crc, op, s, a, b)
    ensures !Active(a) ==> !Active(b) && b.disk == a.disk && b.trace == a.trace
    ensures s == Applied && Syncs(op, a) ==> !b.dirty && Synced(Writes(op, a), b.disk, a.disk, EncodeFile(crc, b.data))
    ensures Active(b) && !(s == Applied && Syncs(op, a)) ==> b.disk == a.disk
  {
    hide Consistent, Rewrites, Written, UpdateOutcome, BatchOutcome, BatchOf, Writes, Synced, EncodeFile;
  }

  /**
   A successful operation other than a buffered update leaves the file holding
   memory, and leaves only that file to survive exactly when it had something to
   write or only one file could survive already.
   */
  lemma AppliedIsOnDisk(crc: Checksum, ops: seq<Op>, results: seq<Status>, hist: seq<Snapshot>, k: nat)
    requires IsHistory(crc, ops, results, hist) && k < |ops|
    requires results[k] == Applied && Syncs(ops[k], hist[k])
    ensures hist[k + 1].disk.main.Some? && Holds(crc, hist[k + 1].disk.main.value.content, hist[k + 1].data)
    ensures Settled(hist[k + 1].disk) <==> Writes(ops[k], hist[k]) || Settled(hist[k].disk)
  {
    hide Holds, Rewrites, Memory, Written, Writes, EncodeFile;
    StepAt(crc, ops, results, hist, k);
    StepOnDisk(crc, ops[k], results[k], hist[k], hist[k + 1]);
  }

  /** Whatever state the disk was in, an acknowledged write is all that a crash can leave. */
  lemma AcknowledgedSurvives(crc: Checksum, ops: seq<Op>, results: seq<Status>, hist: seq<Snapshot>, k: nat)
    requires IsHistory(crc, ops, results, hist) && k < |ops| && SyncedBy(ops, results, hist, k)
    ensures Settled(hist[k + 1].disk)
    ensures hist[k + 1].disk.survivors == {Some(EncodeFile(crc, hist[k + 1].data))}
  {
    hide Step, Writes, EncodeFile;
    StepAt(crc, ops, results, hist, k);
    StepOnDisk(crc, ops[k], results[k], hist[k], hist[k + 1]);
  }

  /** The file of the last operation before `m` that wrote one; before any, the file found at the start. */
  ghost function LastSynced(crc: Checksum, ops: seq<Op>, results: seq<Status>, hist: seq<Snapshot>,
                            m: nat): Option<bytes>
    requires |results| == |ops| && |hist| == |ops| + 1 && m <= |ops|
    decreases m
  {
    if m == 0 then Contents(hist[0].disk.main)
    else if SyncedBy(ops, results, hist, m - 1) then Some(EncodeFile(crc, hist[m].data))
    else LastSynced(crc, ops, results, hist, m - 1)
  }

  /** While it can write, the main file is the last one synced. */
  lemma {:induction false} MainIsLastSynced(crc: Checksum, ops: seq<Op>, results: seq<Status>, hist: seq<Snapshot>,
                                            m: nat)
    requires IsHistory(crc, ops, results, hist) && m < |hist|
    ensures Active(hist[m]) ==> Contents(hist[m].disk.main) == LastSynced(crc, ops, results, hist, m)
    decreases m
  {
    hide Step, Writes, EncodeFile;
    if m > 0 {
      StepAt(crc, ops, results, hist, m - 1);
      StepOnDisk(crc, ops[m - 1], results[m - 1], hist[m - 1], hist[m]);
      MainIsLastSynced(crc, ops, results, hist, m - 1);
    }
  }

  /**
   While it can write, only the last synced file can survive a crash exactly when
   that was so at the start or some operation has written since.
   */
  lemma {:induction false} SettledExactly(crc: Checksum, ops: seq<Op>, results: seq<Status>, hist: seq<Snapshot>,
                                          m: nat)
    requires IsHistory(crc, ops, results, hist) && m < |hist| && Active(hist[m])
    ensures Settled(hist[m].disk) <==>
            Settled(hist[0].disk) || exists k :: 0 <= k < m && SyncedBy(ops, results, hist, k)
    decreases m
  {
    hide Step, Writes, EncodeFile, Settled, SyncedBy;
    if m > 0 {
      StepAt(crc, ops, results, hist, m - 1);
      StepOnDisk(crc, ops[m - 1], results[m - 1], hist[m - 1], hist[m]);
      SettledExactly(crc, ops, results, hist, m - 1);
      SettledStep(crc, ops, results, hist, m - 1);
    }
  }

  lemma SettledStep(crc: Checksum, ops: seq<Op>, results: seq<Status>, hist: seq<Snapshot>, k: nat)
    requires IsHistory(crc, ops, results, hist) && k < |ops| && Active(hist[k + 1])
    ensures Settled(hist[k + 1].disk) <==> Settled(hist[k].disk) || SyncedBy(ops, results, hist, k)
  {
    hide Step, Writes, EncodeFile;
    StepAt(crc, ops, results, hist, k);
    StepOnDisk(crc, ops[k], results[k], hist[k], hist[k + 1]);
  }

  /** The last operation that wrote, or none: what the last synced file is. */
  lemma {:induction false} LastSyncedIs(crc: Checksum, ops: seq<Op>, results: seq<Status>, hist: seq<Snapshot>, m: nat)
    returns (writer: Option<nat>)
    requires IsHistory(crc, ops, results, hist) && m < |hist|
    ensures match writer
            case None => LastSynced(crc, ops, results, hist, m) == Contents(hist[0].disk.main)
            case Some(k) =>
              && k < m && SyncedBy(ops, results, hist, k)
              && LastSynced(crc, ops, results, hist, m) == Some(EncodeFile(crc, hist[k + 1].data))
    ensures forall k :: (if writer.Some? then writer.value + 1 else 0) <= k < m ==> !SyncedBy(ops, results, hist, k)
    decreases m
  {
    hide Step, SyncedBy, EncodeFile;
    if m == 0 {
      writer := None;
    } else if SyncedBy(ops, results, hist, m - 1) {
      writer := Some(m - 1);
    } else {
      writer := LastSyncedIs(crc, ops, results, hist, m - 1);
    }
  }

  /** A crash here leaves the file last synced before operation `k`, or the whole table that `k` is writing. */
  ghost predicate LeavesOneOf(crc: Checksum, ops: seq<Op>, results: seq<Status>, hist: seq<Snapshot>, k: nat,
                              d: DiskState)
    requires |results| == |ops| && |hist| == |ops| + 1 && k < |ops|
  {
    && Sound(d)
    && d.survivors <= {LastSynced(crc, ops, results, hist, k), Some(EncodeFile(crc, Written(ops[k], hist[k].data)))}
  }

  ghost predicate AllLeaveOneOf(crc: Checksum, ops: seq<Op>, results: seq<Status>, hist: seq<Snapshot>, k: nat,
                                states: seq<DiskState>, from: nat)
    requires |results| == |ops| && |hist| == |ops| + 1 && k < |ops|
  {
    forall i :: from <= i < |states| ==> LeavesOneOf(crc, ops, results, hist, k, states[i])
  }

  lemma SettledBefore(crc: Checksum, ops: seq<Op>, results: seq<Status>, hist: seq<Snapshot>, k: nat)
    requires IsHistory(crc, ops, results, hist) && k < |hist| && Settled(hist[0].disk) && Active(hist[k])
    ensures Settled(hist[k].disk) && hist[k].disk.survivors == {LastSynced(crc, ops, results, hist, k)}
  {
    hide Step, EncodeFile, LastSynced, SyncedBy;
    MainIsLastSynced(crc, ops, results, hist, k);
    SettledExactly(crc, ops, results, hist, k);
  }

  lemma ReplacedLeavesOneOf(crc: Checksum, ops: seq<Op>, results: seq<Status>, hist: seq<Snapshot>, k: nat,
                            d: DiskState)
    requires IsHistory(crc, ops, results, hist) && k < |ops| && Settled(hist[0].disk) && Active(hist[k])
    requires Replacing(d, hist[k].disk, EncodeFile(crc, Written(ops[k], hist[k].data)))
    ensures LeavesOneOf(crc, ops, results, hist, k, d)
  {
    hide Step, EncodeFile, LastSynced, Written;
    SettledBefore(crc, ops, results, hist, k);
  }

  /**
   The crash theorem. From a start where only one file could survive, at every
   moment of operation `k` a crash leaves the last synced table or the whole one
   being written, whatever fails; and what is acknowledged is synced.
   */
  lemma LastSyncedOrBeingWritten(crc: Checksum, ops: seq<Op>, results: seq<Status>, hist: seq<Snapshot>, k: nat)
    requires IsHistory(crc, ops, results, hist) && k < |ops| && Settled(hist[0].disk)
    ensures Active(hist[k]) ==> LeavesOneOf(crc, ops, results, hist, k, hist[k + 1].disk)
    ensures !Active(hist[k]) ==> hist[k + 1].disk == hist[k].disk
    ensures AllLeaveOneOf(crc, ops, results, hist, k, hist[k + 1].trace, |hist[k].trace|)
    ensures Active(hist[k + 1]) ==> hist[k + 1].disk.survivors == {LastSynced(crc, ops, results, hist, k + 1)}
  {
    hide Step, Replacing, LeavesOneOf, EncodeFile, LastSynced, Written, Settled;
    StepAt(crc, ops, results, hist, k);
    StepOnDisk(crc, ops[k], results[k], hist[k], hist[k + 1]);
    StepRewrites(crc, ops[k], results[k], hist[k], hist[k + 1]);
    if Active(hist[k]) {
      ReplacedLeavesOneOf(crc, ops, results, hist, k, hist[k + 1].disk);
      var trace := hist[k + 1].trace;
      forall i | |hist[k].trace| <= i < |trace| ensures LeavesOneOf(crc, ops, results, hist, k, trace[i]) {
        ReplacedLeavesOneOf(crc, ops, results, hist, k, trace[i]);
      }
    }
    if Active(hist[k + 1]) {
      SettledBefore(crc, ops, results, hist, k + 1);
    }
  }

  /** The last operation, up to `m`, that found a persister able to write. */
  ghost function LastActive(hist: seq<Snapshot>, m: nat): (k: nat)
    requires m < |hist|
    ensures k <= m && (k > 0 ==> Active(hist[k]))
    ensures forall j :: k < j <= m ==> !Active(hist[j])
    decreases m
  {
    if m == 0 || Active(hist[m]) then m else LastActive(hist, m - 1)
  }

  /**
   Behind a fence or a close, failed or not, the file stays for ever the last
   synced one or the one that the last operation able to write was writing.
   */
  lemma {:induction false} FrozenLeavesOneOf(crc: Checksum, ops: seq<Op>, results: seq<Status>, hist: seq<Snapshot>,
                                             m: nat)
    requires IsHistory(crc, ops, results, hist) && m < |hist|
    requires Settled(hist[0].disk) && Active(hist[0]) && !Active(hist[m])
    ensures LastActive(hist, m) < m
    ensures LeavesOneOf(crc, ops, results, hist, LastActive(hist, m), hist[m].disk)
    decreases m
  {
    hide Step, LeavesOneOf, Settled;
    LastSyncedOrBeingWritten(crc, ops, results, hist, m - 1);
    if !Active(hist[m - 1]) {
      FrozenLeavesOneOf(crc, ops, results, hist, m - 1);
    }
  }

  /** The same for the tables: what is found after a crash is the last synced file, or holds the table being written. */
  lemma CrashFinds(crc: Checksum, ops: seq<Op>, results: seq<Status>, hist: seq<Snapshot>, k: nat, d: DiskState,
                   d': DiskState)
    requires IsHistory(crc, ops, results, hist) && k < |ops| && LeavesOneOf(crc, ops, results, hist, k, d)
    requires CrashedTo(d, d')
    ensures || Contents(d'.main) == LastSynced(crc, ops, results, hist, k)
            || (d'.main.Some? && Holds(crc, d'.main.value.content, Written(ops[k], hist[k].data)))
  {
    hide Step, EncodeFile, LastSynced, Written, Holds;
    EncodedHolds(crc, Written(ops[k], hist[k].data));
  }

  // ----- Runs without failures

  /** Memory after the operations, one after the other. */
  ghost function PerformAll(ops: seq<Op>, data: Table): Table {
    if ops == [] then data else Perform(ops[|ops| - 1], PerformAll(ops[..|ops| - 1], data))
  }

  /** When an operation is an ordinary error. */
  ghost predicate Refuses(op: Op, data: Table) {
    match op
    case UpdateMetadata(u) => !Updates(data, u)
    case Sync => false
    case Close => false
    case _ =>
      var batch := BatchOf(op, data);
      batch.None? || !Acceptable(data, batch.value)
  }

  lemma UnhinderedStep(crc: Checksum, op: Op, s: Status, a: Snapshot, b: Snapshot)
    requires Step(crc, op, s, a, b) && !a.fenced && !a.closed && b.faults <= a.faults
    ensures s == (if Refuses(op, a.data) then Refused else Applied)
    ensures b.data == Perform(op, a.data) && !b.fenced
  {
    hide Consistent, Rewrites, Written, Good, ApplyBatch, WellFormedBatch, Updates, DifferOnlyOn, OldOrNew;
  }

  /**
   A run in which no call fails and nothing follows a close never fences: each
   operation is refused exactly when it should be, and memory is the plain
   composition of the others.
   */
  lemma {:induction false} FaultFreeRunIsTheFold(crc: Checksum, ops: seq<Op>, results: seq<Status>,
                                                 hist: seq<Snapshot>, m: nat)
    requires IsHistory(crc, ops, results, hist) && m < |hist|
    requires !hist[0].fenced && hist[m].faults == hist[0].faults && forall k :: 0 <= k < m ==> !hist[k].closed
    ensures hist[m].data == PerformAll(ops[..m], hist[0].data) && !hist[m].fenced
    ensures forall k :: 0 <= k < m ==>
              results[k] == (if Refuses(ops[k], PerformAll(ops[..k], hist[0].data)) then Refused else Applied)
    decreases m
  {
    hide Step, Refuses, Perform;
    if m == 0 {
      assert ops[..0] == [];
    } else {
      var n := m - 1;
      StepAt(crc, ops, results, hist, n);
      FaultsStay(crc, ops[n], results[n], hist[n], hist[m]);
      FaultsNeverFall(crc, ops, results, hist, n);
      FaultFreeRunIsTheFold(crc, ops, results, hist, n);
      UnhinderedStep(crc, ops[n], results[n], hist[n], hist[m]);
      assert ops[..m][..n] == ops[..n] && ops[..m][n] == ops[n];
    }
  }

  lemma FaultsStay(crc: Checksum, op: Op, s: Status, a: Snapshot, b: Snapshot)
    requires Step(crc, op, s, a, b)
    ensures a.faults <= b.faults
  {
    hide Consistent, Rewrites, Memory, Written;
  }

  lemma {:induction false} FaultsNeverFall(crc: Checksum, ops: seq<Op>, results: seq<Status>, hist: seq<Snapshot>,
                                           m: nat)
    requires IsHistory(crc, ops, results, hist) && m < |hist|
    ensures hist[0].faults <= hist[m].faults
    decreases m
  {
    hide Step;
    if m > 0 {
      FaultsNeverFall(crc, ops, results, hist, m - 1);
      StepAt(crc, ops, results, hist, m - 1);
      FaultsStay(crc, ops[m - 1], results[m - 1], hist[m - 1], hist[m]);
    }
  }

  /** And when it ends in a sync, the file decodes to that composition. */
  lemma FaultFreeRunIsOnDisk(crc: Checksum, ops: seq<Op>, results: seq<Status>, hist: seq<Snapshot>)
    requires IsHistory(crc, ops, results, hist) && ops != [] && ops[|ops| - 1] == Sync
    requires !hist[0].fenced && hist[|ops|].faults == hist[0].faults && forall k :: 0 <= k < |ops| ==> !hist[k].closed
    requires FileFits(PerformAll(ops, hist[0].data))
    ensures hist[|ops|].disk.main.Some?
    ensures DecodeFile(crc, hist[|ops|].disk.main.value.content) == Some(PerformAll(ops, hist[0].data))
    ensures Settled(hist[0].disk) ==>
              hist[|ops|].disk.survivors == {Contents(hist[|ops|].disk.main)} && Settled(hist[|ops|].disk)
  {
    hide Step, DecodeFile, FileFits, Perform, PerformAll, LastSynced, Writes;
    var n := |ops|;
    FaultFreeRunIsTheFold(crc, ops, results, hist, n);
    assert ops[..n] == ops;
    AppliedIsOnDisk(crc, ops, results, hist, n - 1);
    OpenStays(crc, ops[n - 1], results[n - 1], hist[n - 1], hist[n]);
    if Settled(hist[0].disk) {
      SettledBefore(crc, ops, results, hist, n);
    }
  }

  lemma OpenStays(crc: Checksum, op: Op, s: Status, a: Snapshot, b: Snapshot)
    requires Step(crc, op, s, a, b) && !op.Close?
    ensures b.closed == a.closed
  {
    hide Consistent, Rewrites, Memory, Written, Durability;
  }
}

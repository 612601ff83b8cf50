/**
 What memory may hold after a batch whose restoring writes failed too: any mix
 of old and new entries, and exactly when such a mix is free of duplicates.
 */
module HalfWritten {
  import opened Wire
  import opened Catalogue
  import opened KvCodec
  import opened RecordFormat
  import opened Ordering
  import opened PersistModel
  import opened Persister

  /** The batch moves an incarnation from one of its names to another: a rename, or a swap. */
  ghost predicate HandsOver(data: Table, batch: Batch)
    requires Decodes(data)
  {
    exists a, b :: TakesFrom(data, batch, a, b)
  }

  ghost predicate TakesFrom(data: Table, batch: Batch, a: Name, b: Name)
    requires Decodes(data)
  {
    && a != b && a in batch && batch[a].Some? && b in batch && b in data
    && batch[a].value.incarnation == RecordOf(data, b).incarnation
  }

  /** An entry of a half-written table is an old one or a new one. */
  lemma EntryOfMix(data: Table, data0: Table, batch: Batch, n: Name)
    requires Acceptable(data0, batch) && n in data
    requires DifferOnlyOn(data, data0, batch.Keys) && OldOrNew(data, data0, batch)
    ensures || (n in data0 && data[n] == data0[n])
            || (n in batch && n in ApplyBatch(data0, batch) && data[n] == ApplyBatch(data0, batch)[n])
  {
    hide Stamp, DecodeRecord, Good, WellFormedEntry;
    if n in batch {
      assert ValueAt(data, n) == Some(data[n]);
      assert WellFormedBatch(batch) && WellFormedEntry(n, batch[n]);
    } else {
      assert SameAt(data, data0, n);
    }
  }

  /** Without a hand-over every mix is good. */
  lemma MixIsGood(data: Table, data0: Table, batch: Batch)
    requires Acceptable(data0, batch) && !HandsOver(data0, batch)
    requires DifferOnlyOn(data, data0, batch.Keys) && OldOrNew(data, data0, batch)
    ensures Good(data)
  {
    hide DecodeRecord, EncodeRecord, DifferOnlyOn, OldOrNew, ApplyBatch, ValidSessionName;
    var next := ApplyBatch(data0, batch);
    forall n | n in data ensures DecodeRecord(n, data[n]).Some? {
      EntryOfMix(data, data0, batch, n);
    }
    forall a, b | a in data && b in data && a != b
      ensures RecordOf(data, a).incarnation != RecordOf(data, b).incarnation
    {
      EntryOfMix(data, data0, batch, a);
      EntryOfMix(data, data0, batch, b);
      NewAgainstOld(data0, batch, a, b);
      NewAgainstOld(data0, batch, b, a);
    }
  }

  /** Without a hand-over a new entry never clashes with an old one. */
  lemma NewAgainstOld(data0: Table, batch: Batch, a: Name, b: Name)
    requires Acceptable(data0, batch) && !HandsOver(data0, batch) && a != b
    ensures a in batch && a in ApplyBatch(data0, batch) && b in data0 ==>
              RecordOf(ApplyBatch(data0, batch), a).incarnation != RecordOf(data0, b).incarnation
  {
    hide DecodeRecord, EncodeRecord, ValidSessionName;
    var next := ApplyBatch(data0, batch);
    if a in batch && a in next && b in data0 {
      AppliedEntries(data0, batch, a);
      if b in batch {
        assert !TakesFrom(data0, batch, a, b);
      } else {
        assert b in next;
        AppliedEntries(data0, batch, b);
      }
    }
  }

  /** With a hand-over, writing everything but one old entry leaves a duplicate. */
  lemma OneOldEntryDuplicates(data0: Table, batch: Batch, a: Name, b: Name)
    requires Acceptable(data0, batch) && TakesFrom(data0, batch, a, b)
    ensures var data := ApplyBatch(data0, batch)[b := data0[b]];
            BatchOutcome(Fenced(false), batch, data, data0) && !Good(data)
  {
    hide DecodeRecord, EncodeRecord, ValidSessionName;
    var next := ApplyBatch(data0, batch);
    var data := next[b := data0[b]];
    AppliedEntries(data0, batch, a);
    assert RecordOf(data, a).incarnation == RecordOf(data, b).incarnation;
    forall key | key in batch
      ensures ValueAt(data, key) == ValueAt(data0, key) || ValueAt(data, key) == EntryValue(batch[key])
    {
      assert WellFormedEntry(key, batch[key]);
    }
  }

  // ----- Such a mix is reached

  /** Restoring writes one after the other; one that fails changes nothing. */
  function PutBack(data: Table, data0: Table, keys: seq<Name>, answers: seq<bool>): Table
    requires |keys| == |answers|
  {
    if keys == [] then data
    else
      var n := |keys| - 1;
      var before := PutBack(data, data0, keys[..n], answers[..n]);
      if answers[n] then Mutate(before, Mutation(keys[n], ValueAt(data0, keys[n]))) else before
  }

  lemma {:induction false} PutBackOne(data: Table, data0: Table, keys: seq<Name>, answers: seq<bool>, b: Name)
    requires |keys| == |answers| && forall i :: 0 <= i < |keys| ==> (answers[i] <==> keys[i] == b)
    requires b in data0
    ensures PutBack(data, data0, keys, answers) == if b in keys then data[b := data0[b]] else data
    decreases |keys|
  {
    if keys == [] {
    } else {
      var n := |keys| - 1;
      PutBackOne(data, data0, keys[..n], answers[..n], b);
      assert keys == keys[..n] + [keys[n]];
    }
  }

  /**
   Every acceptable batch that hands an incarnation over can leave a duplicate:
   all its writes take effect, the sync fails, and then one restoring write
   succeeds while the others fail.
   */
  lemma HandOverReachesDuplicate(data0: Table, batch: Batch) returns (changes: seq<Mutation>, answers: seq<bool>)
    requires Acceptable(data0, batch) && HandsOver(data0, batch)
    ensures var keys := SortedSeq(batch.Keys);
            && Carries(changes, keys, batch) && |answers| == |keys| && false in answers
            && var data := PutBack(MutateAll(data0, changes), data0, keys, answers);
            BatchOutcome(Fenced(false), batch, data, data0) && !Good(data)
  {
    hide Decodes, Unique, SortedSeq, MutateAll, PutBack, ApplyBatch, BatchOutcome, WellFormedBatch, EncodeRecord;
    var a, b :| TakesFrom(data0, batch, a, b);
    var keys := SortedSeq(batch.Keys);
    assert forall i :: 0 <= i < |keys| ==> keys[i] in Elements(keys);
    assert a in Elements(keys) && b in Elements(keys);
    changes := seq(|keys|, i requires 0 <= i < |keys| => Mutation(keys[i], EntryValue(batch[keys[i]])));
    answers := seq(|keys|, i requires 0 <= i < |keys| => keys[i] == b);
    var ia :| 0 <= ia < |keys| && keys[ia] == a;
    assert !answers[ia];
    MutationsApplyBatch(data0, changes, keys, batch);
    PutBackOne(ApplyBatch(data0, batch), data0, keys, answers, b);
    OneOldEntryDuplicates(data0, batch, a, b);
  }

  /**
   When neither the writes nor the restoring writes succeed, memory is certain to
   stay free of duplicates exactly when the batch hands no incarnation over.
   */
  lemma GoodWhateverFailsExactly(data0: Table, batch: Batch)
    requires Acceptable(data0, batch)
    ensures (forall data :: BatchOutcome(Fenced(false), batch, data, data0) ==>
              Good(data)) <==> !HandsOver(data0, batch)
  {
    hide Unique, Decodes, DifferOnlyOn, OldOrNew, HandsOver, ApplyBatch, WellFormedBatch;
    if HandsOver(data0, batch) {
      var changes, answers := HandOverReachesDuplicate(data0, batch);
    } else {
      forall data | BatchOutcome(Fenced(false), batch, data, data0) ensures Good(data) {
        MixIsGood(data, data0, batch);
      }
    }
  }

  /** Every rename that keeps the incarnation hands it over. */
  lemma RenameHandsOver(data: Table, oldName: Name, next: Record)
    requires Decodes(data) && oldName in data && oldName != next.name
    requires next.incarnation == RecordOf(data, oldName).incarnation
    ensures HandsOver(data, map[oldName := None, next.name := Some(next)])
  {
    var batch: Batch := map[oldName := None, next.name := Some(next)];
    assert TakesFrom(data, batch, next.name, oldName);
  }

  // ----- A concrete swap

  function Plain(name: Name, id: byte): Record {
    Record(name, seq(16, i => id), [], 0, 0, 0, [], [], None, [])
  }

  lemma PlainIsStored(name: Name, id: byte)
    requires ValidSessionName(name) && id != 0
    ensures Stamp(Plain(name, id)).Some?
    ensures DecodeRecord(name, Stamp(Plain(name, id)).value) == Some(Stored(Plain(name, id), CURRENT))
  {
    hide PutRecord, DecodeRecord;
    assert Plain(name, id).incarnation[0] == id;
    StampDecodes(Plain(name, id));
  }

  /** A good table, an acceptable swap of its incarnations, and failing calls after which one of them is there twice. */
  lemma SwapMayDuplicate()
    returns (data0: Table, batch: Batch, changes: seq<Mutation>, answers: seq<bool>)
    ensures Acceptable(data0, batch)
    ensures var keys := SortedSeq(batch.Keys);
            && Carries(changes, keys, batch) && |answers| == |keys| && false in answers
            && var data := PutBack(MutateAll(data0, changes), data0, keys, answers);
            BatchOutcome(Fenced(false), batch, data, data0) && !Good(data)
  {
    hide DecodeRecord, EncodeRecord, ValidSessionName, SortedSeq, MutateAll, PutBack, BatchOutcome;
    var a: Name, b: Name := [0x61], [0x62];
    SingleLetters();
    PlainIsStored(a, 1);
    PlainIsStored(b, 2);
    PlainIsStored(a, 2);
    PlainIsStored(b, 1);
    data0 := map[a := Stamp(Plain(a, 1)).value, b := Stamp(Plain(b, 2)).value];
    batch := map[a := Some(Plain(a, 2)), b := Some(Plain(b, 1))];
    assert Plain(a, 1).incarnation[0] == 1 && Plain(b, 2).incarnation[0] == 2;
    assert Plain(a, 2).incarnation[0] == 2 && Plain(b, 1).incarnation[0] == 1;
    assert Good(data0);
    assert WellFormedBatch(batch);
    var next := ApplyBatch(data0, batch);
    assert next == map[a := Stamp(Plain(a, 2)).value, b := Stamp(Plain(b, 1)).value];
    assert Good(next);
    assert a in batch;
    assert TakesFrom(data0, batch, a, b);
    changes, answers := HandOverReachesDuplicate(data0, batch);
  }

  lemma SingleLetters()
    ensures ValidSessionName([0x61]) && ValidSessionName([0x62])
  {
  }
}

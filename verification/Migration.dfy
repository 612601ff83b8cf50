/** Loading the catalogue at startup and rewriting records of older formats. */
module Migration {
  import opened Wire
  import opened Ordering
  import opened Envelope
  import opened Catalogue
  import opened KvCodec
  import opened RecordFormat
  import opened Disk
  import opened KvStore
  import opened PersistModel
  import opened Persister
  import RecordCodec

  /** The decoded records of a table, in name order. */
  ghost function RecordsOf(data: Table): seq<Record>
    requires Decodes(data)
  {
    SortedInTable(data);
    RecordsAt(data, SortedSeq(data.Keys))
  }

  function RecordsAt(data: Table, names: seq<Name>): seq<Record>
    requires Decodes(data)
    requires forall i :: 0 <= i < |names| ==> names[i] in data
  {
    if names == [] then [] else [RecordOf(data, names[0])] + RecordsAt(data, names[1..])
  }

  lemma {:induction false} RecordsAtEach(data: Table, names: seq<Name>)
    requires Decodes(data)
    requires forall i :: 0 <= i < |names| ==> names[i] in data
    ensures |RecordsAt(data, names)| == |names|
    ensures forall i :: 0 <= i < |names| ==> RecordsAt(data, names)[i] == RecordOf(data, names[i])
  {
    hide DecodeRecord;
    if names == [] {
    } else {
      RecordsAtEach(data, names[1..]);
    }
  }

  lemma RecordsOfEach(data: Table)
    requires Decodes(data)
    ensures var keys := SortedSeq(data.Keys);
            && |RecordsOf(data)| == |keys|
            && forall i :: 0 <= i < |keys| ==> keys[i] in data && RecordsOf(data)[i] == RecordOf(data, keys[i])
  {
    hide DecodeRecord, SortedSeq, RecordsAt;
    SortedInTable(data);
    RecordsAtEach(data, SortedSeq(data.Keys));
  }

  ghost predicate DistinctIncarnations(rs: seq<Record>) {
    forall i, j :: 0 <= i < j < |rs| ==> rs[i].incarnation != rs[j].incarnation
  }

  lemma UniqueByPosition(data: Table)
    requires Decodes(data)
    ensures Unique(data) <==> DistinctIncarnations(RecordsOf(data))
  {
    hide DecodeRecord, SortedSeq, Less, RecordsOf;
    var keys, rs := SortedSeq(data.Keys), RecordsOf(data);
    RecordsOfEach(data);
    if Unique(data) {
      forall i, j | 0 <= i < j < |rs| ensures rs[i].incarnation != rs[j].incarnation {
        LessTotal(keys[i], keys[j]);
        assert Less(keys[i], keys[j]);
      }
    }
    if DistinctIncarnations(rs) {
      forall a, b | a in data && b in data && a != b
        ensures RecordOf(data, a).incarnation != RecordOf(data, b).incarnation
      {
        assert a in Elements(keys) && b in Elements(keys);
        var i :| 0 <= i < |keys| && keys[i] == a;
        var j :| 0 <= j < |keys| && keys[j] == b;
        if i < j {
          assert rs[i].incarnation != rs[j].incarnation;
        } else {
          assert rs[j].incarnation != rs[i].incarnation;
        }
      }
    }
  }

  /** All records, exactly when the catalogue is not fenced and good. */
  method LoadCatalogue(p: Persister) returns (res: Option<seq<Record>>)
    requires p.Valid()
    ensures res.Some? <==> !p.fenced && Good(p.store.data)
    ensures res.Some? ==> res.value == RecordsOf(p.store.data)
  {
    hide DecodeRecord, SortedSeq, Less, Holds, Sound, IndexMatches;
    if p.fenced {
      return None;
    }
    var data := p.store.data;
    var keys := p.store.Entries();
    SortedInTable(data);
    var records: seq<Record> := [];
    for i := 0 to |keys|
      invariant |records| == i
      invariant forall j :: 0 <= j < i ==>
                  DecodeRecord(keys[j], data[keys[j]]).Some? && records[j] == RecordOf(data, keys[j])
    {
      var stored := RecordCodec.Decode(keys[i], data[keys[i]]);
      if stored.None? {
        return None;
      }
      records := records + [stored.value.record];
    }
    assert Decodes(data) by {
      forall name | name in data ensures DecodeRecord(name, data[name]).Some? {
        assert name in Elements(keys);
      }
    }
    RecordsOfEach(data);
    assert records == RecordsOf(data);
    UniqueByPosition(data);
    var ok := ValidateUnique(records);
    if !ok {
      return None;
    }
    return Some(records);
  }

  /** The records came from decoding, so only duplicates can be wrong with them. */
  method ValidateUnique(records: seq<Record>) returns (ok: bool)
    ensures ok <==> DistinctIncarnations(records)
  {
    var seen: map<Incarnation, nat> := map[];
    for i := 0 to |records|
      invariant DistinctIncarnations(records[..i])
      invariant forall id :: id in seen ==> seen[id] < i && records[seen[id]].incarnation == id
      invariant forall j :: 0 <= j < i ==> records[j].incarnation in seen
    {
      if records[i].incarnation in seen {
        assert records[seen[records[i].incarnation]].incarnation == records[i].incarnation;
        return false;
      }
      seen := seen[records[i].incarnation := i];
    }
    assert records[..|records|] == records;
    return true;
  }

  datatype Outcome = NotNeeded | Performed | Failed

  /** Whether any stored value is in an older format. */
  method AnyLegacy(p: Persister) returns (res: Option<bool>)
    requires p.Valid()
    ensures res.Some? <==> Decodes(p.store.data)
    ensures res.Some? ==> (res.value <==> !AllCurrent(p.store.data))
  {
    hide DecodeRecord, SortedSeq, Less, Holds, Sound, IndexMatches, Unique;
    var data := p.store.data;
    var keys := p.store.Entries();
    SortedInTable(data);
    var formats: set<u16> := {};
    for i := 0 to |keys|
      invariant forall j :: 0 <= j < i ==>
                  DecodeRecord(keys[j], data[keys[j]]).Some?
                      && DecodeRecord(keys[j], data[keys[j]]).value.format in formats
      invariant forall f :: f in formats ==>
                  exists j :: 0 <= j < i
                      && DecodeRecord(keys[j], data[keys[j]]) == Some(Stored(RecordOf(data, keys[j]), f))
    {
      var stored := RecordCodec.Decode(keys[i], data[keys[i]]);
      if stored.None? {
        return None;
      }
      formats := formats + {stored.value.format};
    }
    forall name | name in data
      ensures DecodeRecord(name, data[name]).Some? && DecodeRecord(name, data[name]).value.format in formats
    {
      assert name in Elements(keys);
    }
    var legacy := exists f :: f in formats && f != CURRENT;
    return Some(legacy);
  }

  /** The table with every record re-encoded in the current format. */
  ghost function Migrated(data: Table): Table
    requires Good(data)
  {
    MigrationIsLossless(data);
    ApplyBatch(data, MigrationBatch(data))
  }

  /**
   Afterwards every stored value is in the current format and decodes to exactly
   the record read before; nothing happens when that was already so.
   */
  method MigrateLegacyRecords(p: Persister, records: seq<Record>) returns (m: Outcome)
    requires p.Valid() && !p.fenced && Good(p.store.data) && records == RecordsOf(p.store.data)
    modifies p, p.store, p.store.disk
    ensures p.Valid() && old(p.store.disk.trace) <= p.store.disk.trace
    ensures m == NotNeeded <==> AllCurrent(old(p.store.data))
    ensures m == NotNeeded ==> p.store.data == old(p.store.data) && p.store.disk.s == old(p.store.disk.s)
    ensures m == NotNeeded ==> !p.fenced && p.store.dirty == old(p.store.dirty)
    ensures m == Performed ==> !p.fenced && !p.store.dirty
    ensures old(p.store.disk.faults) <= p.store.disk.faults
    ensures p.store.closed == old(p.store.closed)
    ensures m == Failed && !p.store.closed ==> old(p.store.disk.faults) < p.store.disk.faults
    ensures m == Failed ==> p.fenced || (p.store.dirty == old(p.store.dirty) && p.store.data == old(p.store.data))
    ensures Settled(old(p.store.disk.s)) && m != Failed ==> Settled(p.store.disk.s)
    ensures Rewrites(p.store.disk.trace, |old(p.store.disk.trace)|, p.store.disk.s, old(p.store.disk.s), p.store.crc,
                     Migrated(old(p.store.data)))
    ensures m != Failed ==>
              && p.store.data.Keys == old(p.store.data.Keys) && Good(p.store.data) && AllCurrent(p.store.data)
              && forall n :: n in p.store.data ==> RecordOf(p.store.data, n) == RecordOf(old(p.store.data), n)
  {
    hide DecodeRecord, SortedSeq, Decodes, Unique, Holds, Sound, IndexMatches, ApplyBatch, Rewrites, RecordsOf;
    hide Settled;
    ghost var data := p.store.data;
    NothingWritten(p.store.disk.trace, p.store.disk.s, p.store.crc, Migrated(data));
    var legacy := AnyLegacy(p);
    if legacy.None? {
      return Failed;
    }
    if !legacy.value {
      return NotNeeded;
    }
    var backedUp := p.store.disk.Attempt();
    if !backedUp {
      return Failed;
    }
    var updates := UpdatesFor(records, data);
    MigrationIsLossless(data);
    MigrationIsAcceptable(data);
    AcceptedOutcome(updates, data);
    var s := p.Apply(updates);
    SyncedStaysSettled(p.store.disk.s, old(p.store.disk.s), EncodeFile(p.store.crc, p.store.data));
    if s != Applied {
      return Failed;
    }
    return Performed;
  }

  lemma MigrationIsAcceptable(data: Table)
    requires Good(data) && !AllCurrent(data)
    ensures Acceptable(data, MigrationBatch(data))
  {
    hide DecodeRecord, EncodeRecord, ValidSessionName, Unique;
    MigrationIsLossless(data);
    var n :| n in data && DecodeRecord(n, data[n]).value.format != CURRENT;
    assert n in MigrationBatch(data);
  }

  lemma SyncedStaysSettled(d: DiskState, d0: DiskState, file: bytes)
    ensures Settled(d0) ==> forall wrote :: Synced(wrote, d, d0, file) ==> Settled(d)
  {
  }

  lemma NothingIsGood()
    ensures Good(map[])
  {
  }

  method UpdatesFor(records: seq<Record>, ghost data: Table) returns (updates: Batch)
    requires Decodes(data) && records == RecordsOf(data)
    ensures updates == MigrationBatch(data)
  {
    hide DecodeRecord, SortedSeq, Less, RecordsOf;
    updates := map[];
    ghost var keys := SortedSeq(data.Keys);
    RecordsOfEach(data);
    for i := 0 to |records|
      invariant forall n :: n in updates ==> n in data && updates[n] == Some(RecordOf(data, n))
      invariant forall j :: 0 <= j < i ==> keys[j] in updates
    {
      NamedAsKey(data, keys[i]);
      updates := updates[records[i].name := Some(records[i])];
    }
    assert updates.Keys == data.Keys by {
      forall n | n in data ensures n in updates {
        assert n in Elements(keys);
      }
    }
  }

  /** A file that does not decode, or decodes to duplicates. */
  ghost predicate Unusable(crc: Checksum, content: bytes) {
    DecodeFile(crc, content).None? || !Good(DecodeFile(crc, content).value)
  }

  /** The table has the records of the file, each under its name, all in the current format. */
  ghost predicate SameRecords(crc: Checksum, content: bytes, data: Table) {
    && !Unusable(crc, content) && Good(data) && AllCurrent(data)
    && var before := DecodeFile(crc, content).value;
    && data.Keys == before.Keys
    && forall n :: n in before ==> RecordOf(data, n) == RecordOf(before, n)
  }

  /** What opening writes, if anything: the file found, migrated; without a usable file, the empty table. */
  ghost function OpenWrites(crc: Checksum, found: Option<bytes>): Table {
    if found.None? || Unusable(crc, found.value) then map[] else Migrated(DecodeFile(crc, found.value).value)
  }

  /**
   A crash while opening, migration included, leaves a file with the very records
   of the one found, or that file itself.
   */
  lemma CrashDuringOpenKeepsRecords(crc: Checksum, d: DiskState, d0: DiskState, d': DiskState)
    requires Settled(d0) && !Unusable(crc, d0.main.value.content)
    requires FileFits(OpenWrites(crc, Contents(d0.main)))
    requires Replacing(d, d0, EncodeFile(crc, OpenWrites(crc, Contents(d0.main)))) && CrashedTo(d, d')
    ensures d'.main.Some?
    ensures Contents(d'.main) == Contents(d0.main)
            || (DecodeFile(crc, d'.main.value.content).Some?
                && SameRecords(crc, d0.main.value.content, DecodeFile(crc, d'.main.value.content).value))
  {
    hide EncodeFile, DecodeFile, FileFits, Good, RecordOf, AllCurrent, ApplyBatch;
    CrashDuringSyncIsAtomic(crc, d, d0, d', OpenWrites(crc, Contents(d0.main)));
    MigrationIsLossless(DecodeFile(crc, d0.main.value.content).value);
  }

  /**
   Opens the catalogue, or creates an empty one. A file that exists but does not
   decode is left untouched.
   */
  method OpenOrCreate(crc: Checksum, disk: Volume) returns (p: Option<Persister>, m: Outcome)
    requires Sound(disk.s)
    modifies disk
    ensures p.Some? ==> fresh(p.value) && p.value.Valid() && !p.value.fenced && m != Failed
    ensures p.Some? ==> fresh(p.value.store) && p.value.store.disk == disk && p.value.store.crc == crc
    ensures p.Some? ==> !p.value.store.dirty
    ensures p.Some? ==> Good(p.value.store.data) && AllCurrent(p.value.store.data)
    ensures old(disk.s.main).Some? && p.Some? ==>
              && SameRecords(crc, old(disk.s.main).value.content, p.value.store.data)
              && (m == NotNeeded <==> AllCurrent(DecodeFile(crc, old(disk.s.main).value.content).value))
              && (m == NotNeeded ==> Some(p.value.store.data) == DecodeFile(crc, old(disk.s.main).value.content))
    ensures old(disk.s.main).None? && p.Some? ==> p.value.store.data == map[]
    ensures p.Some? && (old(disk.s.main).None? || Settled(old(disk.s))) ==> Settled(disk.s)
    ensures old(disk.trace) <= disk.trace
    ensures Rewrites(disk.trace, |old(disk.trace)|, disk.s, old(disk.s), crc, OpenWrites(crc,
              Contents(old(disk.s.main))))
    ensures old(disk.s.main).Some? && Unusable(crc, old(disk.s.main).value.content) ==> p.None? && disk.s == old(disk.s)
    ensures p.Some? ==> !p.value.store.closed
    ensures old(disk.faults) <= disk.faults
    ensures p.None? ==>
              || old(disk.faults) < disk.faults
              || (old(disk.s.main).Some? && Unusable(crc, old(disk.s.main).value.content))
  {
    hide DecodeFile, EncodeFile, Decodes, Unique, Holds, Sound, IndexMatches, RecordsOf, DecodeRecord, AllCurrent;
    var store := Store.Open(crc, disk);
    if store.None? {
      return None, Failed;
    }
    var q := new Persister(store.value);
    NothingIsGood();
    var records := LoadCatalogue(q);
    if records.None? {
      var closed := q.Close();
      return None, Failed;
    }
    m := MigrateLegacyRecords(q, records.value);
    if m == Failed {
      var closed := q.Close();
      return None, Failed;
    }
    return Some(q), m;
  }

  /**
   A catalogue that was opened once has nothing left to migrate: closed and opened
   again it holds the very same table, and only a failing call can prevent that.
   */
  method OpenTwice(crc: Checksum, disk: Volume)
    returns (first: Option<Persister>, second: Option<Persister>, m: Outcome)
    requires Sound(disk.s)
    modifies disk
    ensures old(disk.s.main).Some? && first.Some? ==>
              SameRecords(crc, old(disk.s.main).value.content, first.value.store.data)
    ensures first.None? ==>
              || old(disk.faults) < disk.faults
              || (old(disk.s.main).Some? && Unusable(crc, old(disk.s.main).value.content))
    ensures first.None? ==> second.None?
    ensures first.Some? && FileFits(first.value.store.data) ==>
              if second.Some? then m == NotNeeded && second.value.store.data == first.value.store.data
                  && !second.value.fenced
              else old(disk.faults) < disk.faults
  {
    hide DecodeFile, EncodeFile, FileFits, Good, Sound, IndexMatches, RecordOf, AllCurrent, Rewrites;
    second := None;
    first, m := OpenOrCreate(crc, disk);
    if first.None? {
      return;
    }
    var closed := first.value.Close();
    second, m := OpenOrCreate(crc, disk);
  }
}

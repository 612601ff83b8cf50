/**
 The catalogue as a table of stored records: when it is good, what a batch does
 to it, and why the duplicate check of a batch is exact.
 */
module PersistModel {
  import opened Wire
  import opened Catalogue
  import opened KvCodec
  import opened RecordFormat
  import opened Ordering

  type Name = bytes
  type Batch = map<Name, Option<Record>>

  // ----- Reading the table

  predicate Decodes(data: Table) {
    forall name :: name in data ==> DecodeRecord(name, data[name]).Some?
  }

  function RecordOf(data: Table, name: Name): Record
    requires name in data && DecodeRecord(name, data[name]).Some?
  {
    DecodeRecord(name, data[name]).value.record
  }

  /** No two stored records share an incarnation. */
  predicate Unique(data: Table)
    requires Decodes(data)
  {
    forall a, b :: a in data && b in data && a != b ==>
      RecordOf(data, a).incarnation != RecordOf(data, b).incarnation
  }

  predicate Good(data: Table) {
    Decodes(data) && Unique(data)
  }

  /** The two index maps are mutual inverses and agree with the decoded table. */
  ghost predicate IndexMatches(owners: map<Incarnation, Name>, names: map<Name, Incarnation>, data: Table)
    requires Decodes(data)
  {
    && names.Keys == data.Keys
    && (forall n :: n in names ==> names[n] == RecordOf(data, n).incarnation)
    && (forall n :: n in names ==> names[n] in owners && owners[names[n]] == n)
    && (forall id :: id in owners ==> owners[id] in names && names[owners[id]] == id)
  }

  /** A table with an index is free of duplicates. */
  lemma IndexImpliesUnique(owners: map<Incarnation, Name>, names: map<Name, Incarnation>, data: Table)
    requires Decodes(data) && IndexMatches(owners, names, data)
    ensures Unique(data)
  {
    forall a, b | a in data && b in data && a != b
      ensures RecordOf(data, a).incarnation != RecordOf(data, b).incarnation
    {
      assert owners[names[a]] == a && owners[names[b]] == b;
    }
  }

  lemma IndexRemove(owners: map<Incarnation, Name>, names: map<Name, Incarnation>, data: Table, n: Name)
    requires Decodes(data) && IndexMatches(owners, names, data) && n in data
    ensures Decodes(data - {n})
    ensures IndexMatches(owners - {names[n]}, names - {n}, data - {n})
  {
    hide DecodeRecord;
    var d := data - {n};
    forall m | m in names - {n} ensures names[m] != names[n] && names[m] == RecordOf(d, m).incarnation {
      assert owners[names[m]] == m;
    }
    forall id | id in owners - {names[n]} ensures owners[id] != n {
    }
  }

  lemma IndexAdd(owners: map<Incarnation, Name>, names: map<Name, Incarnation>, data: Table, n: Name, value: bytes)
    requires Decodes(data) && IndexMatches(owners, names, data) && n !in data
    requires DecodeRecord(n, value).Some?
    requires forall m :: m in data ==> RecordOf(data, m).incarnation != DecodeRecord(n, value).value.record.incarnation
    ensures Decodes(data[n := value])
    ensures var id := DecodeRecord(n, value).value.record.incarnation;
            IndexMatches(owners[id := n], names[n := id], data[n := value])
  {
    hide DecodeRecord;
    var id := DecodeRecord(n, value).value.record.incarnation;
    var d := data[n := value];
    forall m | m in d ensures DecodeRecord(m, d[m]).Some? {
    }
    forall m | m in names ensures names[m] != id && RecordOf(d, m) == RecordOf(data, m) {
    }
    assert id !in owners;
  }

  /** The part of a table under the given names. */
  function Only(data: Table, names: set<Name>): Table {
    map n | n in data && n in names :: data[n]
  }

  ghost predicate Indexes(owners: map<Incarnation, Name>, names: map<Name, Incarnation>, data: Table) {
    Decodes(data) && IndexMatches(owners, names, data)
  }

  lemma IndexNothing(data: Table)
    ensures Only(data, {}) == map[] && Indexes(map[], map[], map[])
  {
  }

  /** One step of building the index. */
  lemma IndexGrows(owners: map<Incarnation, Name>, names: map<Name, Incarnation>, data: Table, seen: set<Name>, n: Name)
    requires Indexes(owners, names, Only(data, seen)) && n in data && n !in seen
    requires DecodeRecord(n, data[n]).Some?
    ensures var id := DecodeRecord(n, data[n]).value.record.incarnation;
            if id in owners then !Good(data) else Indexes(owners[id := n], names[n := id], Only(data, seen + {n}))
  {
    hide DecodeRecord;
    var id := DecodeRecord(n, data[n]).value.record.incarnation;
    var part := Only(data, seen);
    if id in owners {
      var rival := owners[id];
      assert rival in part && RecordOf(part, rival).incarnation == id;
      assert RecordOf(data, rival).incarnation == RecordOf(data, n).incarnation && rival != n;
    } else {
      IndexAdd(owners, names, part, n, data[n]);
      assert part[n := data[n]] == Only(data, seen + {n});
    }
  }

  lemma IndexShrinks(owners: map<Incarnation, Name>, names: map<Name, Incarnation>, data: Table, gone: set<Name>,
                     n: Name)
    requires Indexes(owners, names, data - gone) && n !in gone
    ensures if n in names then Indexes(owners - {names[n]}, names - {n}, data - (gone + {n}))
            else data - (gone + {n}) == data - gone
  {
    hide DecodeRecord;
    if n in names {
      IndexRemove(owners, names, data - gone, n);
      assert data - gone - {n} == data - (gone + {n});
    } else {
      assert n !in data - gone;
    }
  }

  // ----- Batches

  function Stamp(r: Record): Option<bytes> {
    EncodeRecord(r, CURRENT, 0)
  }

  predicate WellFormedEntry(name: Name, entry: Option<Record>) {
    && ValidSessionName(name)
    && (entry.Some? ==> entry.value.name == name && Stamp(entry.value).Some?)
  }

  /** Every name is valid and every record carries its key's name and can be encoded. */
  predicate WellFormedBatch(batch: Batch) {
    forall name :: name in batch ==> WellFormedEntry(name, batch[name])
  }

  /** The table after the whole batch: records replaced, nil entries deleted. */
  function ApplyBatch(data: Table, batch: Batch): Table
    requires WellFormedBatch(batch)
  {
    map name | name in data.Keys + batch.Keys && (name in batch ==> batch[name].Some?) ::
      if name in batch then Stamp(batch[name].value).value else data[name]
  }

  /** A stored current-format value decodes to the record it was made from. */
  lemma StampDecodes(r: Record)
    requires Stamp(r).Some?
    ensures DecodeRecord(r.name, Stamp(r).value) == Some(Stored(r, CURRENT))
  {
    RecordRoundTrip(r, CURRENT, 0);
  }

  lemma AppliedEntries(data: Table, batch: Batch, name: Name)
    requires Decodes(data) && WellFormedBatch(batch)
    requires name in ApplyBatch(data, batch)
    ensures DecodeRecord(name, ApplyBatch(data, batch)[name]).Some?
    ensures name in batch ==> batch[name].Some? && RecordOf(ApplyBatch(data, batch), name) == batch[name].value
    ensures name !in batch ==> name in data && RecordOf(ApplyBatch(data, batch), name) == RecordOf(data, name)
  {
    hide DecodeRecord, EncodeRecord;
    if name in batch {
      StampDecodes(batch[name].value);
    }
  }

  lemma AppliedDecodes(data: Table, batch: Batch)
    requires Decodes(data) && WellFormedBatch(batch)
    ensures Decodes(ApplyBatch(data, batch))
  {
    hide DecodeRecord, EncodeRecord;
    forall name | name in ApplyBatch(data, batch) ensures DecodeRecord(name, ApplyBatch(data, batch)[name]).Some? {
      AppliedEntries(data, batch, name);
    }
  }

  /** No other entry of the batch claims the incarnation of `name`. */
  predicate AloneInBatch(batch: Batch, name: Name)
    requires name in batch && batch[name].Some?
  {
    forall other :: other in batch && other != name && batch[other].Some? ==>
      batch[other].value.incarnation != batch[name].value.incarnation
  }

  /** The current owner of the incarnation, if another, gives it up in this batch. */
  predicate OwnerYields(batch: Batch, name: Name, owners: map<Incarnation, Name>)
    requires name in batch && batch[name].Some?
  {
    var id := batch[name].value.incarnation;
    id in owners && owners[id] != name ==>
      && owners[id] in batch
      && (batch[owners[id]].None? || batch[owners[id]].value.incarnation != id)
  }

  predicate PassesDuplicateCheck(batch: Batch, owners: map<Incarnation, Name>) {
    forall name :: name in batch && batch[name].Some? ==>
      AloneInBatch(batch, name) && OwnerYields(batch, name, owners)
  }

  /**
   The duplicate check of a well-formed batch, swaps and renames included, passes
   exactly when the whole resulting table has unique incarnations.
   */
  lemma DuplicateCheckIsExact(data: Table, batch: Batch, owners: map<Incarnation, Name>, names: map<Name, Incarnation>)
    requires Decodes(data) && IndexMatches(owners, names, data) && WellFormedBatch(batch)
    ensures Decodes(ApplyBatch(data, batch))
    ensures PassesDuplicateCheck(batch, owners) <==> Unique(ApplyBatch(data, batch))
  {
    hide DecodeRecord, EncodeRecord;
    AppliedDecodes(data, batch);
    if PassesDuplicateCheck(batch, owners) {
      PassingIsUnique(data, batch, owners, names);
    } else {
      FailingIsNotUnique(data, batch, owners, names);
    }
  }

  lemma PassingIsUnique(data: Table, batch: Batch, owners: map<Incarnation, Name>, names: map<Name, Incarnation>)
    requires Decodes(data) && IndexMatches(owners, names, data) && WellFormedBatch(batch)
    requires Decodes(ApplyBatch(data, batch))
    requires PassesDuplicateCheck(batch, owners)
    ensures Unique(ApplyBatch(data, batch))
  {
    hide DecodeRecord, EncodeRecord;
    var next := ApplyBatch(data, batch);
    forall a, b | a in next && b in next && a != b
      ensures RecordOf(next, a).incarnation != RecordOf(next, b).incarnation
    {
      AppliedEntries(data, batch, a);
      AppliedEntries(data, batch, b);
      if a in batch && b in batch {
        assert AloneInBatch(batch, a);
      } else if a in batch {
        assert OwnerYields(batch, a, owners);
        assert names[b] in owners && owners[names[b]] == b;
      } else if b in batch {
        assert OwnerYields(batch, b, owners);
        assert names[a] in owners && owners[names[a]] == a;
      } else {
        IndexImpliesUnique(owners, names, data);
      }
    }
  }

  lemma FailingIsNotUnique(data: Table, batch: Batch, owners: map<Incarnation, Name>, names: map<Name, Incarnation>)
    requires Decodes(data) && IndexMatches(owners, names, data) && WellFormedBatch(batch)
    requires Decodes(ApplyBatch(data, batch))
    requires !PassesDuplicateCheck(batch, owners)
    ensures !Unique(ApplyBatch(data, batch))
  {
    hide DecodeRecord, EncodeRecord;
    var next := ApplyBatch(data, batch);
    var name :| name in batch && batch[name].Some? && !(AloneInBatch(batch, name) && OwnerYields(batch, name, owners));
    assert name in next;
    AppliedEntries(data, batch, name);
    var rival: Name;
    if !AloneInBatch(batch, name) {
      rival :| rival in batch && rival != name && batch[rival].Some?
        && batch[rival].value.incarnation == batch[name].value.incarnation;
    } else {
      rival := owners[batch[name].value.incarnation];
      assert rival in names;
    }
    assert rival in next;
    AppliedEntries(data, batch, rival);
    assert RecordOf(next, name).incarnation == RecordOf(next, rival).incarnation;
  }

  /** One step of recording a batch's claims in the index of what it leaves alone. */
  lemma ClaimGrows(owners: map<Incarnation, Name>, names: map<Name, Incarnation>, before: Table, batch: Batch,
                   todo: set<Name>, n: Name)
    requires Decodes(before) && WellFormedBatch(batch) && Good(ApplyBatch(before, batch))
    requires n in todo && todo <= batch.Keys
    requires Indexes(owners, names, ApplyBatch(before, batch) - todo)
    ensures var next := ApplyBatch(before, batch);
            if batch[n].Some? then
              Indexes(owners[batch[n].value.incarnation := n], names[n := batch[n].value.incarnation],
                  next - (todo - {n}))
            else next - (todo - {n}) == next - todo
  {
    hide DecodeRecord, EncodeRecord, ValidSessionName;
    var next := ApplyBatch(before, batch);
    if batch[n].Some? {
      AppliedEntries(before, batch, n);
      forall m | m in next - todo ensures RecordOf(next - todo, m).incarnation != RecordOf(next, n).incarnation {
        assert m in next && m != n;
      }
      IndexAdd(owners, names, next - todo, n, next[n]);
      assert (next - todo)[n := next[n]] == next - (todo - {n});
    } else {
      assert n !in next;
    }
  }

  lemma Untouched(before: Table, batch: Batch)
    requires WellFormedBatch(batch)
    ensures ApplyBatch(before, batch) - batch.Keys == before - batch.Keys
  {
  }

  // ----- Metadata updates

  datatype Update = Update(
    name: Name, incarnation: Incarnation, cwd: Option<bytes>, updatedAt: Option<i64>,
    lastUsedSeq: Option<u64>, tabNames: Option<seq<bytes>>, tabs: Option<seq<TabRecord>>)

  function Or<T>(value: Option<T>, fallback: T): T {
    if value.Some? then value.value else fallback
  }

  function Updated(r: Record, u: Update): Record {
    r.(cwd := Or(u.cwd, r.cwd), updatedAt := Or(u.updatedAt, r.updatedAt),
       lastUsedSeq := Or(u.lastUsedSeq, r.lastUsedSeq),
       tabNames := Or(u.tabNames, r.tabNames), tabs := Or(u.tabs, r.tabs))
  }

  /** The update names a stored record by its current, nonzero incarnation and can be encoded. */
  predicate Updates(data: Table, u: Update) {
    && Good(data)
    && u.name in data
    && !AllZero(u.incarnation)
    && RecordOf(data, u.name).incarnation == u.incarnation
    && Stamp(Updated(RecordOf(data, u.name), u)).Some?
  }

  function UpdateTable(data: Table, u: Update): Table {
    if Updates(data, u) then data[u.name := Stamp(Updated(RecordOf(data, u.name), u)).value] else data
  }

  /** The fields only identity operations may change. */
  ghost predicate SameIdentity(a: Record, b: Record) {
    && a.name == b.name && a.incarnation == b.incarnation && a.createdAt == b.createdAt
    && a.committed == b.committed && a.degradedReason == b.degradedReason
  }

  ghost predicate IdentityKept(before: Table, after: Table)
    requires Decodes(before)
  {
    && after.Keys == before.Keys && Decodes(after)
    && forall n :: n in before ==> SameIdentity(RecordOf(before, n), RecordOf(after, n))
  }

  /** Every metadata field is the given value where one is given and the old value otherwise; nothing else changed. */
  ghost predicate MetadataTaken(u: Update, before: Record, after: Record) {
    && SameIdentity(before, after)
    && (if u.cwd.Some? then after.cwd == u.cwd.value else after.cwd == before.cwd)
    && (if u.updatedAt.Some? then after.updatedAt == u.updatedAt.value else after.updatedAt == before.updatedAt)
    && (if u.lastUsedSeq.Some? then after.lastUsedSeq == u.lastUsedSeq.value
        else after.lastUsedSeq == before.lastUsedSeq)
    && (if u.tabNames.Some? then after.tabNames == u.tabNames.value else after.tabNames == before.tabNames)
    && (if u.tabs.Some? then after.tabs == u.tabs.value else after.tabs == before.tabs)
  }

  /** The update reaches the stored record. */
  ghost predicate UpdateSeen(u: Update, before: Table, after: Table) {
    && u.name in before && DecodeRecord(u.name, before[u.name]).Some?
    && u.name in after && DecodeRecord(u.name, after[u.name]).Some?
    && RecordOf(before, u.name).incarnation == u.incarnation
    && MetadataTaken(u, RecordOf(before, u.name), RecordOf(after, u.name))
  }

  lemma UpdateIsSeen(data: Table, u: Update)
    requires Updates(data, u)
    ensures UpdateSeen(u, data, UpdateTable(data, u))
  {
    hide DecodeRecord, EncodeRecord, AllZero, Unique;
    NamedAsKey(data, u.name);
    StampDecodes(Updated(RecordOf(data, u.name), u));
  }

  /** The complete metadata update of a record. */
  function MetadataUpdate(r: Record): Update {
    Update(r.name, r.incarnation, Some(r.cwd), Some(r.updatedAt), Some(r.lastUsedSeq), Some(r.tabNames), Some(r.tabs))
  }

  /** Updating with all the metadata of a record leaves that record with the stored identity. */
  lemma CompleteUpdateCopies(data: Table, r: Record)
    requires Updates(data, MetadataUpdate(r))
    ensures var next := UpdateTable(data, MetadataUpdate(r));
            && r.name in data && r.name in next && DecodeRecord(r.name, next[r.name]).Some?
            && var before := RecordOf(data, r.name);
            RecordOf(next, r.name)
            == r.(createdAt := before.createdAt, committed := before.committed, degradedReason := before.degradedReason)
  {
    hide DecodeRecord, EncodeRecord, AllZero, UpdateTable;
    UpdateIsSeen(data, MetadataUpdate(r));
    NamedAsKey(data, r.name);
  }

  /** Nothing but the metadata of the named records changed; all others keep their bytes. */
  ghost predicate OnlyMetadata(before: Table, after: Table, names: set<Name>)
    requires Decodes(before)
  {
    && Good(after) && IdentityKept(before, after)
    && forall n :: n in before && n !in names ==> n in after && after[n] == before[n]
  }

  lemma UpdateKeepsIdentity(data: Table, u: Update)
    requires Good(data)
    ensures OnlyMetadata(data, data, {u.name}) && OnlyMetadata(data, UpdateTable(data, u), {u.name})
  {
    hide DecodeRecord, EncodeRecord;
    if Updates(data, u) {
      var next := UpdateTable(data, u);
      var r := Updated(RecordOf(data, u.name), u);
      NamedAsKey(data, u.name);
      StampDecodes(r);
      forall n | n in next ensures DecodeRecord(n, next[n]).Some?
          && SameIdentity(RecordOf(data, n), RecordOf(next, n)) {
      }
    }
  }

  lemma NamedAsKey(data: Table, name: Name)
    requires name in data && DecodeRecord(name, data[name]).Some?
    ensures RecordOf(data, name).name == name && ValidSessionName(name)
  {
    hide GetBody, GetFormat;
  }

  /** An update as the one-entry batch that carries it out. */
  lemma UpdateAsBatch(data: Table, u: Update)
    requires Good(data) && u.name in data
    requires RecordOf(data, u.name).incarnation == u.incarnation && !AllZero(u.incarnation)
    ensures var batch: Batch := map[u.name := Some(Updated(RecordOf(data, u.name), u))];
            && (WellFormedBatch(batch) <==> Updates(data, u))
            && (WellFormedBatch(batch) ==>
                  ApplyBatch(data, batch) == UpdateTable(data, u) && Good(UpdateTable(data, u)))
  {
    hide DecodeRecord, EncodeRecord, ValidSessionName;
    NamedAsKey(data, u.name);
    var batch: Batch := map[u.name := Some(Updated(RecordOf(data, u.name), u))];
    assert WellFormedBatch(batch) <==> WellFormedEntry(u.name, batch[u.name]);
    UpdateKeepsIdentity(data, u);
  }

  // ----- Migration

  predicate AllCurrent(data: Table)
    requires Decodes(data)
  {
    forall n :: n in data ==> DecodeRecord(n, data[n]).value.format == CURRENT
  }

  /** Every record rewritten in the current format. */
  ghost function MigrationBatch(data: Table): Batch
    requires Decodes(data)
  {
    map n | n in data :: Some(RecordOf(data, n))
  }

  lemma DecodedCanBeStamped(name: Name, value: bytes)
    requires DecodeRecord(name, value).Some?
    ensures Stamp(DecodeRecord(name, value).value.record).Some?
  {
    hide GetFormat, GetFields, GetTail, ValidRecord;
    RecordCanonical(name, value);
  }

  /** Migration keeps every record and leaves nothing to migrate. */
  lemma MigrationIsLossless(data: Table)
    requires Good(data)
    ensures WellFormedBatch(MigrationBatch(data))
    ensures var next := ApplyBatch(data, MigrationBatch(data));
            && next.Keys == data.Keys && Good(next) && AllCurrent(next)
            && forall n :: n in data ==> RecordOf(next, n) == RecordOf(data, n)
  {
    hide DecodeRecord, EncodeRecord, ValidSessionName;
    var batch := MigrationBatch(data);
    forall n | n in batch ensures WellFormedEntry(n, batch[n]) {
      NamedAsKey(data, n);
      DecodedCanBeStamped(n, data[n]);
    }
    var next := ApplyBatch(data, batch);
    AppliedDecodes(data, batch);
    assert next.Keys == data.Keys;
    forall n | n in data ensures RecordOf(next, n) == RecordOf(data, n)
        && DecodeRecord(n, next[n]).value.format == CURRENT {
      StampDecodes(RecordOf(data, n));
      NamedAsKey(data, n);
    }
  }
}

/**
 The catalogue persister over the key/value store: atomic batches, the
 incarnation index, and the fence raised by an ambiguous durable write.

 Every call through the store port may fail, with or without having taken
 effect; this is what the nondeterministic choices in the `Port` methods model.
 */
module Persister {
  import opened Wire
  import opened Ordering
  import opened Catalogue
  import opened Envelope
  import opened KvCodec
  import opened RecordFormat
  import opened Disk
  import opened KvStore
  import opened PersistModel
  import RecordCodec

  /**
   A refusal is an ordinary error that leaves memory as it was; a fenced result
   is the durability error, and says whether memory was put back.
   */
  datatype Status = Applied | Refused | Fenced(restored: bool)

  datatype Mutation = Mutation(key: Name, value: Option<bytes>)

  // ----- Mutations

  function Mutate(data: Table, c: Mutation): Table {
    if c.value.None? then data - {c.key} else data[c.key := c.value.value]
  }

  function MutateAll(data: Table, cs: seq<Mutation>): Table {
    if cs == [] then data else Mutate(MutateAll(data, cs[..|cs| - 1]), cs[|cs| - 1])
  }

  ghost predicate SameAt(a: Table, b: Table, key: Name) {
    (key in a <==> key in b) && (key in a ==> a[key] == b[key])
  }

  /** The tables differ at most on `keys`. */
  ghost predicate DifferOnlyOn(a: Table, b: Table, keys: set<Name>) {
    forall key :: key !in keys ==> SameAt(a, b, key)
  }

  /** The value a batch entry stores, or nothing for a deletion. */
  function EntryValue(entry: Option<Record>): Option<bytes> {
    if entry.None? then None else Stamp(entry.value)
  }

  ghost predicate Carries(cs: seq<Mutation>, keys: seq<Name>, batch: Batch) {
    && |cs| == |keys|
    && forall i :: 0 <= i < |cs| ==>
         cs[i].key == keys[i] && keys[i] in batch && cs[i].value == EntryValue(batch[keys[i]])
  }

  /** Some mutation marks a store with this table dirty. */
  ghost predicate Marks(cs: seq<Mutation>, data: Table) {
    exists i :: 0 <= i < |cs| && (cs[i].value.Some? || cs[i].key in data)
  }

  lemma MarksOneMore(cs: seq<Mutation>, c: Mutation, data: Table)
    ensures Marks(cs + [c], data) <==> Marks(cs, data) || c.value.Some? || c.key in data
  {
    var all := cs + [c];
    assert all[|cs|] == c;
    if Marks(cs, data) {
      var i :| 0 <= i < |cs| && (cs[i].value.Some? || cs[i].key in data);
      assert all[i] == cs[i];
    }
  }

  lemma MarksExactly(cs: seq<Mutation>, batch: Batch, data: Table)
    requires WellFormedBatch(batch)
    requires forall i :: 0 <= i < |cs| ==> cs[i].key in batch && cs[i].value == EntryValue(batch[cs[i].key])
    requires forall key :: key in batch ==> exists i :: 0 <= i < |cs| && cs[i].key == key
    ensures Marks(cs, data) <==> Dirties(batch, data)
  {
    hide EncodeRecord, ValidSessionName;
    forall i | 0 <= i < |cs| ensures cs[i].value.Some? <==> batch[cs[i].key].Some? {
      assert WellFormedEntry(cs[i].key, batch[cs[i].key]);
    }
  }

  lemma {:induction false} MutateAllAt(data: Table, cs: seq<Mutation>, keys: seq<Name>, batch: Batch, key: Name)
    requires Carries(cs, keys, batch) && WellFormedBatch(batch)
    ensures key !in keys ==> SameAt(MutateAll(data, cs), data, key)
    ensures key in keys ==>
              && (key in MutateAll(data, cs) <==> batch[key].Some?)
              && (batch[key].Some? ==> MutateAll(data, cs)[key] == Stamp(batch[key].value).value)
    decreases |cs|
  {
    hide EncodeRecord, ValidSessionName;
    if cs == [] {
    } else {
      var n := |cs| - 1;
      MutateAllAt(data, cs[..n], keys[..n], batch, key);
      assert keys == keys[..n] + [keys[n]];
      assert WellFormedEntry(keys[n], batch[keys[n]]);
    }
  }

  lemma MutationsApplyBatch(data: Table, cs: seq<Mutation>, keys: seq<Name>, batch: Batch)
    requires Carries(cs, keys, batch) && WellFormedBatch(batch) && Elements(keys) == batch.Keys
    ensures MutateAll(data, cs) == ApplyBatch(data, batch)
  {
    hide EncodeRecord, MutateAll, ValidSessionName;
    var a, b := MutateAll(data, cs), ApplyBatch(data, batch);
    forall key ensures SameAt(a, b, key) {
      MutateAllAt(data, cs, keys, batch, key);
      assert key in keys <==> key in Elements(keys);
    }
    SameEverywhere(a, b);
  }

  function ValueAt(data: Table, key: Name): Option<bytes> {
    if key in data then Some(data[key]) else None
  }

  /** Every touched key holds what it held before or what the batch gives it. */
  ghost predicate OldOrNew(data: Table, data0: Table, batch: Batch) {
    forall key :: key in batch ==>
      ValueAt(data, key) == ValueAt(data0, key) || ValueAt(data, key) == EntryValue(batch[key])
  }

  /** A half-written batch of one entry is that batch or nothing. */
  lemma OldOrNewSingle(data: Table, data0: Table, name: Name, record: Record)
    requires WellFormedBatch(map[name := Some(record)])
    requires DifferOnlyOn(data, data0, {name}) && OldOrNew(data, data0, map[name := Some(record)])
    ensures data == data0 || data == ApplyBatch(data0, map[name := Some(record)])
  {
    hide EncodeRecord, ValidSessionName;
    var batch: Batch := map[name := Some(record)];
    var next := ApplyBatch(data0, batch);
    assert name in batch && WellFormedEntry(name, batch[name]);
    if ValueAt(data, name) == ValueAt(data0, name) {
      SameEverywhere(data, data0);
    } else {
      forall key ensures SameAt(data, next, key) {
        assert key == name ==> ValueAt(data, key) == EntryValue(batch[key]);
        assert key != name ==> SameAt(data, data0, key);
      }
      SameEverywhere(data, next);
    }
  }

  lemma SameEverywhere(a: Table, b: Table)
    requires forall key :: SameAt(a, b, key)
    ensures a == b
  {
    assert a.Keys == b.Keys by {
      forall key ensures key in a <==> key in b {
        assert SameAt(a, b, key);
      }
    }
    assert forall key :: key in a ==> SameAt(a, b, key);
  }

  /** A batch the persister carries out: the result must be a good table. */
  ghost predicate Acceptable(data: Table, batch: Batch) {
    && |batch| != 0 && Good(data) && WellFormedBatch(batch)
    && Good(ApplyBatch(data, batch))
  }

  /** Every disk state from `from` on cleanly replaces the old file by `table`, or keeps it. */
  ghost predicate Rewrites(trace: seq<DiskState>, from: nat, d: DiskState, d0: DiskState, crc: Checksum, table: Table) {
    AllReplacing(trace, from, d0, EncodeFile(crc, table)) && Replacing(d, d0, EncodeFile(crc, table))
  }

  lemma NothingWritten(trace: seq<DiskState>, d: DiskState, crc: Checksum, table: Table)
    requires Sound(d)
    ensures Rewrites(trace, |trace|, d, d, crc, table)
  {
  }

  /** A fence, once up, stays up, and is what a fenced status reports. */
  ghost predicate Stays(s: Status, wasFenced: bool, isFenced: bool) {
    (wasFenced ==> isFenced) && (s.Fenced? <==> isFenced)
  }

  /** Everything about a persister and its store that an operation can change, but for the index. */
  datatype Snapshot = Snapshot(
    data: Table, dirty: bool, closed: bool, fenced: bool, disk: DiskState, trace: seq<DiskState>, faults: nat)

  /** Behind the fence neither memory nor the disk changes. */
  ghost predicate FencedOff(after: Snapshot, before: Snapshot) {
    after.data == before.data && after.dirty == before.dirty && after.disk == before.disk && after.trace == before.trace
  }

  /** The batch marks the store dirty, unless all it does is delete what is not there. */
  ghost predicate Dirties(batch: Batch, data: Table) {
    exists key :: key in batch && (batch[key].Some? || key in data)
  }

  /**
   What a durable operation does to the disk: nothing on a closed store, and a
   success that had something to write leaves only the new file to survive.
   */
  ghost predicate Durably(s: Status, wrote: bool, after: Snapshot, before: Snapshot, crc: Checksum) {
    && (before.closed ==> after.disk == before.disk && after.trace == before.trace)
    && (s == Applied ==> Synced(wrote, after.disk, before.disk, EncodeFile(crc, after.data)))
  }

  /**
   A new fence has a cause in this very operation: a call failed or the store had
   been closed; and memory is not put back only if a restoring call failed as well.
   */
  ghost predicate Caused(s: Status, after: Snapshot, before: Snapshot) {
    && before.faults <= after.faults
    && (s.Fenced? ==> before.fenced || before.closed || before.faults < after.faults)
    && (s == Fenced(false) ==> before.closed || before.faults + 2 <= after.faults)
  }

  /** What a durable batch does to memory. */
  ghost predicate BatchOutcome(s: Status, batch: Batch, data: Table, data0: Table) {
    && (s == Refused <==> !Acceptable(data0, batch))
    && (s == Refused ==> data == data0)
    && (s == Applied ==> WellFormedBatch(batch) && data == ApplyBatch(data0, batch))
    && (s.Fenced? ==>
          DifferOnlyOn(data, data0, batch.Keys) && OldOrNew(data, data0, batch) && (s.restored ==> data == data0))
  }

  /** What a metadata update does to memory: all of it or nothing, whatever fails. */
  ghost predicate UpdateOutcome(s: Status, u: Update, data: Table, data0: Table) {
    && (s == Refused <==> !Updates(data0, u))
    && (s == Refused ==> data == data0)
    && (s == Applied ==> data == UpdateTable(data0, u) && UpdateSeen(u, data0, data))
    && (s.Fenced? ==> (data == data0 || data == UpdateTable(data0, u)) && (s.restored ==> data == data0))
  }

  lemma UpdateOutcomeIsGood(s: Status, u: Update, data: Table, data0: Table)
    requires UpdateOutcome(s, u, data, data0) && Good(data0)
    ensures OnlyMetadata(data0, data, {u.name})
  {
    hide Updates, UpdateTable, OnlyMetadata, Decodes, Unique;
    UpdateKeepsIdentity(data0, u);
  }

  /** An update that gets as far as its batch is applied, refused or fenced as the batch is. */
  lemma UpdateThroughBatch(s: Status, u: Update, data: Table, data0: Table, current: Record)
    requires u.name in data0 && DecodeRecord(u.name, data0[u.name]).Some? && current == RecordOf(data0, u.name)
    requires !AllZero(u.incarnation) && current.incarnation == u.incarnation
    requires BatchOutcome(s, map[current.name := Some(Updated(current, u))], data, data0)
    ensures UpdateOutcome(s, u, data, data0)
  {
    hide DecodeRecord, EncodeRecord, ApplyBatch, Decodes, Unique, AllZero, Updated, UpdateSeen, DifferOnlyOn, OldOrNew;
    NamedAsKey(data0, u.name);
    var batch: Batch := map[u.name := Some(Updated(current, u))];
    assert u.name in batch;
    if Good(data0) {
      UpdateAsBatch(data0, u);
    }
    if Updates(data0, u) {
      UpdateIsSeen(data0, u);
    }
    if s.Fenced? {
      assert batch.Keys == {u.name};
      OldOrNewSingle(data, data0, u.name, Updated(current, u));
    }
  }

  /** Without a stored record of that incarnation an update is refused. */
  lemma UpdateWithoutRecord(u: Update, data: Table)
    requires u.name in data && DecodeRecord(u.name, data[u.name]).Some? ==>
               AllZero(u.incarnation) || RecordOf(data, u.name).incarnation != u.incarnation
    ensures UpdateOutcome(Refused, u, data, data)
  {
    hide DecodeRecord, EncodeRecord, AllZero, Unique;
  }

  lemma AcceptedOutcome(batch: Batch, data: Table)
    requires Acceptable(data, batch)
    ensures Outcome(batch, data) == ApplyBatch(data, batch)
    ensures BatchOutcome(Applied, batch, ApplyBatch(data, batch), data)
  {
  }

  lemma FencedOutcome(batch: Batch, data: Table, data0: Table, restored: bool)
    requires Acceptable(data0, batch)
    requires DifferOnlyOn(data, data0, batch.Keys) && OldOrNew(data, data0, batch) && (restored ==> data == data0)
    ensures BatchOutcome(Fenced(restored), batch, data, data0)
  {
  }

  lemma RefusedOutcome(batch: Batch, data: Table)
    requires !Acceptable(data, batch)
    ensures BatchOutcome(Refused, batch, data, data)
  {
  }

  /** The table a batch would write: the new one if acceptable. */
  ghost function Outcome(batch: Batch, data: Table): Table {
    if Acceptable(data, batch) then ApplyBatch(data, batch) else data
  }

  class Persister {
    const store: Store
    var owners: map<Incarnation, Name>
    var names: map<Name, Incarnation>
    var indexed: bool
    var fenced: bool

    /** A built index means a good table that it matches; a fence drops the index. */
    ghost predicate Valid()
      reads this, store, store.disk
    {
      && store.Valid()
      && (indexed ==> !fenced && Good(store.data) && IndexMatches(owners, names, store.data))
    }

    ghost function Snap(): Snapshot
      reads this, store, store.disk
    {
      Snapshot(store.data, store.dirty, store.closed, fenced, store.disk.s, store.disk.trace, store.disk.faults)
    }

    constructor (store: Store)
      requires store.Valid()
      ensures Valid() && this.store == store && !indexed && !fenced
    {
      this.store, owners, names, indexed, fenced := store, map[], map[], false, false;
    }

    // ----- The store port

    method PortSet(key: Name, value: bytes) returns (ok: bool)
      requires store.Valid()
      modifies store`data, store`dirty, store.disk`faults
      ensures store.Valid()
      ensures store.data == old(store.data)[key := value] || (!ok && store.data == old(store.data))
      ensures ok ==> store.dirty
      ensures old(store.disk.faults) <= store.disk.faults && (!ok ==>
                store.closed || old(store.disk.faults) < store.disk.faults)
    {
      var answered := store.disk.Attempt();
      if !answered {
        var effect := *;
        if effect {
          ok := store.Set(key, value);
        }
        return false;
      }
      ok := store.Set(key, value);
    }

    method PortDelete(key: Name) returns (ok: bool)
      requires store.Valid()
      modifies store`data, store`dirty, store.disk`faults
      ensures store.Valid()
      ensures store.data == old(store.data) - {key} || (!ok && store.data == old(store.data))
      ensures ok ==> store.dirty == (old(store.dirty) || key in old(store.data))
      ensures old(store.disk.faults) <= store.disk.faults && (!ok ==>
                store.closed || old(store.disk.faults) < store.disk.faults)
    {
      var answered := store.disk.Attempt();
      if !answered {
        var effect := *;
        if effect {
          ok := store.Delete(key);
        }
        return false;
      }
      ok := store.Delete(key);
    }

    method PortSync() returns (ok: bool)
      requires store.Valid()
      modifies store`dirty, store.disk
      ensures store.Valid() && (ok ==> !store.dirty)
      ensures ok ==> Synced(old(store.dirty), store.disk.s, old(store.disk.s), EncodeFile(store.crc, store.data))
      ensures store.closed ==> store.disk.s == old(store.disk.s) && store.disk.trace == old(store.disk.trace)
      ensures old(store.disk.trace) <= store.disk.trace
      ensures Rewrites(store.disk.trace, |old(store.disk.trace)|, store.disk.s, old(store.disk.s), store.crc,
                store.data)
      ensures old(store.disk.faults) <= store.disk.faults && (!ok ==>
                store.closed || old(store.disk.faults) < store.disk.faults)
    {
      hide EncodeFile;
      var answered := store.disk.Attempt();
      if !answered {
        var effect := *;
        if effect {
          ok := store.Sync();
        }
        return false;
      }
      ok := store.Sync();
    }

    // ----- The incarnation index

    method EnsureIndex() returns (ok: bool)
      requires Valid() && !fenced
      modifies this`owners, this`names, this`indexed
      ensures Valid()
      ensures ok <==> Good(store.data)
      ensures ok <==> indexed
    {
      hide DecodeRecord, Decodes, Unique, IndexMatches, Only, Elements, SortedSeq;
      if indexed {
        return true;
      }
      var data := store.data;
      var keys := store.Entries();
      var newOwners: map<Incarnation, Name> := map[];
      var newNames: map<Name, Incarnation> := map[];
      ghost var seen: set<Name> := Elements(keys[..0]);
      SortedEnds(keys, data.Keys);
      IndexNothing(data);
      for i := 0 to |keys|
        invariant !indexed && seen == Elements(keys[..i])
        invariant Indexes(newOwners, newNames, Only(data, seen))
      {
        var name := keys[i];
        SortedPosition(keys, data.Keys, i);
        var stored := RecordCodec.Decode(name, data[name]);
        if stored.None? {
          Undecodable(data, name);
          return false;
        }
        IndexGrows(newOwners, newNames, data, seen, name);
        var id := stored.value.record.incarnation;
        if id in newOwners {
          return false;
        }
        newOwners := newOwners[id := name];
        newNames := newNames[name := id];
        seen := seen + {name};
      }
      OnlyAll(data);
      IndexImpliesUnique(newOwners, newNames, data);
      owners, names, indexed := newOwners, newNames, true;
      return true;
    }

    // ----- Checking a batch

    method Prepare(batch: Batch) returns (changes: Option<seq<Mutation>>)
      ensures changes.Some? <==> WellFormedBatch(batch)
      ensures changes.Some? ==> Carries(changes.value, SortedSeq(batch.Keys), batch)
    {
      hide EncodeRecord, ValidSessionName, SortedSeq, Sorted;
      var keys := SortKeys(batch.Keys);
      assert Elements(keys) == batch.Keys;
      var out: seq<Mutation> := [];
      for i := 0 to |keys|
        invariant |out| == i
        invariant forall j :: 0 <= j < i ==>
                    && keys[j] in batch && WellFormedEntry(keys[j], batch[keys[j]])
                    && out[j].key == keys[j] && out[j].value == EntryValue(batch[keys[j]])
      {
        var name := keys[i];
        assert name in Elements(keys);
        var entry := batch[name];
        if !ValidSessionName(name) {
          return None;
        }
        if entry.None? {
          out := out + [Mutation(name, None)];
        } else {
          if entry.value.name != name {
            return None;
          }
          var value := RecordCodec.EncodeForFormat(entry.value, CURRENT, 0);
          if value.None? {
            return None;
          }
          out := out + [Mutation(name, value)];
        }
      }
      forall name | name in batch ensures WellFormedEntry(name, batch[name]) {
        assert name in Elements(keys);
      }
      return Some(out);
    }

    method CheckDuplicates(batch: Batch) returns (ok: bool)
      ensures ok <==> PassesDuplicateCheck(batch, owners)
    {
      var incoming: map<Incarnation, Name> := map[];
      var todo := batch.Keys;
      while todo != {}
        invariant todo <= batch.Keys
        invariant forall id :: id in incoming ==>
                    && incoming[id] in batch && incoming[id] !in todo && batch[incoming[id]].Some?
                    && batch[incoming[id]].value.incarnation == id
        invariant forall n :: n in batch && n !in todo && batch[n].Some? ==>
                    && batch[n].value.incarnation in incoming && incoming[batch[n].value.incarnation] == n
                    && OwnerYields(batch, n, owners)
        decreases todo
      {
        var name :| name in todo;
        todo := todo - {name};
        var record := batch[name];
        if record.Some? {
          var id := record.value.incarnation;
          if id in incoming {
            assert !AloneInBatch(batch, name) by {
              assert incoming[id] != name;
            }
            return false;
          }
          incoming := incoming[id := name];
          if id in owners && owners[id] != name {
            var owner := owners[id];
            if owner !in batch || (batch[owner].Some? && batch[owner].value.incarnation == id) {
              assert !OwnerYields(batch, name, owners);
              return false;
            }
          }
        }
      }
      forall n | n in batch && batch[n].Some? ensures AloneInBatch(batch, n) {
        assert incoming[batch[n].value.incarnation] == n;
      }
      return true;
    }

    // ----- Writing a batch

    method WriteChanges(changes: seq<Mutation>, ghost batch: Batch) returns (ok: bool)
      requires store.Valid()
      requires forall i :: 0 <= i < |changes| ==>
                 changes[i].key in batch && changes[i].value == EntryValue(batch[changes[i].key])
      modifies store`data, store`dirty, store.disk`faults
      ensures store.Valid()
      ensures ok ==> store.data == MutateAll(old(store.data), changes)
      ensures ok ==> (store.dirty <==> old(store.dirty) || Marks(changes, old(store.data)))
      ensures DifferOnlyOn(store.data, old(store.data), batch.Keys) && OldOrNew(store.data, old(store.data), batch)
      ensures old(store.disk.faults) <= store.disk.faults && (!ok ==>
                store.closed || old(store.disk.faults) < store.disk.faults)
    {
      hide EntryValue;
      for i := 0 to |changes|
        invariant store.Valid() && old(store.disk.faults) <= store.disk.faults
        invariant store.data == MutateAll(old(store.data), changes[..i])
        invariant store.dirty <==> old(store.dirty) || Marks(changes[..i], old(store.data))
        invariant store.data.Keys != old(store.data.Keys) ==> store.dirty
        invariant DifferOnlyOn(store.data, old(store.data), batch.Keys) && OldOrNew(store.data, old(store.data), batch)
      {
        var change := changes[i];
        assert changes[..i + 1] == changes[..i] + [change];
        assert changes[..i + 1][..i] == changes[..i];
        MarksOneMore(changes[..i], change, old(store.data));
        if change.value.None? {
          ok := PortDelete(change.key);
        } else {
          ok := PortSet(change.key, change.value.value);
        }
        if !ok {
          return;
        }
      }
      assert changes[..|changes|] == changes;
      return true;
    }

    /** All the changes, and for a durable batch the sync. */
    method WriteBatch(ghost batch: Batch, changes: seq<Mutation>, durable: bool) returns (ok: bool)
      requires store.Valid() && WellFormedBatch(batch) && Carries(changes, SortedSeq(batch.Keys), batch)
      modifies store`data, store`dirty, store.disk
      ensures store.Valid()
      ensures ok ==> store.data == ApplyBatch(old(store.data), batch) && (durable ==> !store.dirty)
      ensures ok && durable ==>
                Synced(old(store.dirty) || Dirties(batch, old(store.data)), store.disk.s, old(store.disk.s),
                       EncodeFile(store.crc, store.data))
      ensures DifferOnlyOn(store.data, old(store.data), batch.Keys) && OldOrNew(store.data, old(store.data), batch)
      ensures !durable || store.closed ==>
                store.disk.s == old(store.disk.s) && store.disk.trace == old(store.disk.trace)
      ensures old(store.disk.faults) <= store.disk.faults && (!ok ==>
                store.closed || old(store.disk.faults) < store.disk.faults)
      ensures old(store.disk.trace) <= store.disk.trace
      ensures Rewrites(store.disk.trace, |old(store.disk.trace)|, store.disk.s, old(store.disk.s), store.crc,
                       ApplyBatch(old(store.data), batch))
    {
      hide WellFormedBatch, ApplyBatch, Holds, SortedSeq, MutateAll, Elements, DifferOnlyOn, OldOrNew, EntryValue;
      hide Rewrites, Sound, Carries, EncodeFile, Synced, Marks, Dirties;
      ghost var before := store.data;
      ghost var keys := SortedSeq(batch.Keys);
      MutationsApplyBatch(before, changes, keys, batch);
      CarriedKeys(changes, keys, batch);
      MarksExactly(changes, batch, before);
      NothingWritten(store.disk.trace, store.disk.s, store.crc, ApplyBatch(before, batch));
      ok := WriteChanges(changes, batch);
      if ok && durable {
        ok := PortSync();
      }
    }

    method Remember(changes: seq<Mutation>) returns (previous: map<Name, Option<bytes>>)
      ensures forall i :: 0 <= i < |changes| ==> changes[i].key in previous
      ensures forall key :: key in previous ==>
                && (exists i :: 0 <= i < |changes| && changes[i].key == key)
                && previous[key] == ValueAt(store.data, key)
    {
      previous := map[];
      for i := 0 to |changes|
        invariant forall j :: 0 <= j < i ==> changes[j].key in previous
        invariant forall key :: key in previous ==>
                    && (exists j :: 0 <= j < i && changes[j].key == key)
                    && previous[key] == ValueAt(store.data, key)
      {
        var value := store.Get(changes[i].key);
        previous := previous[changes[i].key := value];
      }
    }

    /** Puts the touched keys back; deliberately does not sync. */
    method Restore(previous: map<Name, Option<bytes>>, ghost before: Table, ghost batch: Batch) returns (ok: bool)
      requires store.Valid() && previous.Keys == batch.Keys
      requires forall key :: key in previous ==> previous[key] == ValueAt(before, key)
      requires DifferOnlyOn(store.data, before, batch.Keys) && OldOrNew(store.data, before, batch)
      modifies store`data, store`dirty, store.disk`faults
      ensures store.Valid()
      ensures ok ==> store.data == before
      ensures DifferOnlyOn(store.data, before, batch.Keys) && OldOrNew(store.data, before, batch)
      ensures old(store.disk.faults) <= store.disk.faults
      ensures !ok ==> store.closed || old(store.disk.faults) < store.disk.faults
    {
      hide EntryValue;
      var todo := previous.Keys;
      ok := true;
      while todo != {}
        invariant store.Valid() && todo <= previous.Keys && old(store.disk.faults) <= store.disk.faults
        invariant !ok ==> store.closed || old(store.disk.faults) < store.disk.faults
        invariant DifferOnlyOn(store.data, before, batch.Keys) && OldOrNew(store.data, before, batch)
        invariant ok ==> DifferOnlyOn(store.data, before, todo)
        decreases todo
      {
        var key :| key in todo;
        todo := todo - {key};
        var done;
        if previous[key].Some? {
          done := PortSet(key, previous[key].value);
        } else {
          done := PortDelete(key);
        }
        ok := ok && done;
      }
      if ok {
        SameEverywhere(store.data, before);
      }
    }

    /** Drops the batch's old claims, then records its new ones. */
    method Reindex(batch: Batch, ghost before: Table)
      requires Decodes(before) && IndexMatches(owners, names, before) && WellFormedBatch(batch)
      requires Good(ApplyBatch(before, batch))
      modifies this`owners, this`names
      ensures IndexMatches(owners, names, ApplyBatch(before, batch))
    {
      hide ApplyBatch, Decodes, Unique, IndexMatches, WellFormedBatch;
      var todo := batch.Keys;
      ghost var gone: set<Name> := {};
      assert before - gone == before;
      while todo != {}
        invariant todo <= batch.Keys && gone == batch.Keys - todo
        invariant Indexes(owners, names, before - gone)
        decreases todo
      {
        var name :| name in todo;
        todo := todo - {name};
        IndexShrinks(owners, names, before, gone, name);
        if name in names {
          owners, names := owners - {names[name]}, names - {name};
        }
        gone := gone + {name};
      }
      assert gone == batch.Keys;
      Untouched(before, batch);
      todo := batch.Keys;
      while todo != {}
        invariant todo <= batch.Keys
        invariant Indexes(owners, names, ApplyBatch(before, batch) - todo)
        decreases todo
      {
        var name :| name in todo;
        ClaimGrows(owners, names, before, batch, todo, name);
        todo := todo - {name};
        if batch[name].Some? {
          owners := owners[batch[name].value.incarnation := name];
          names := names[name := batch[name].value.incarnation];
        }
      }
      assert ApplyBatch(before, batch) - {} == ApplyBatch(before, batch);
    }

    // ----- Operations

    /** Accepts exactly the acceptable batches, and changes nothing but the index. */
    method CheckBatch(batch: Batch) returns (changes: Option<seq<Mutation>>)
      requires Valid() && !fenced
      modifies this`owners, this`names, this`indexed
      ensures Valid()
      ensures changes.Some? <==> Acceptable(store.data, batch)
      ensures changes.Some? ==> indexed && Carries(changes.value, SortedSeq(batch.Keys), batch)
    {
      hide Decodes, Unique, IndexMatches, WellFormedEntry, ApplyBatch, PassesDuplicateCheck, Holds, Carries, SortedSeq;
      if |batch| == 0 {
        return None;
      }
      var ok := EnsureIndex();
      if !ok {
        return None;
      }
      changes := Prepare(batch);
      if changes.None? {
        return;
      }
      DuplicateCheckIsExact(store.data, batch, owners, names);
      ok := CheckDuplicates(batch);
      if !ok {
        return None;
      }
    }

    /** Writes an accepted batch, or restores memory and fences. */
    method Commit(batch: Batch, changes: seq<Mutation>, durable: bool) returns (s: Status)
      requires Valid() && indexed && Acceptable(store.data, batch)
      requires Carries(changes, SortedSeq(batch.Keys), batch)
      modifies this`owners, this`names, this`indexed, this`fenced, store`data, store`dirty, store.disk
      ensures Valid() && (s.Fenced? <==> fenced) && s != Refused
      ensures BatchOutcome(s, batch, store.data, old(store.data))
      ensures s == Applied ==> indexed && (durable ==> !store.dirty)
      ensures Caused(s, Snap(), old(Snap()))
      ensures durable ==> Durably(s, old(store.dirty)
                || Dirties(batch, old(store.data)), Snap(), old(Snap()), store.crc)
      ensures old(store.disk.trace) <= store.disk.trace
      ensures !durable ==> store.disk.s == old(store.disk.s) && store.disk.trace == old(store.disk.trace)
      ensures Rewrites(store.disk.trace, |old(store.disk.trace)|, store.disk.s, old(store.disk.s), store.crc,
                       Outcome(batch, old(store.data)))
    {
      hide Decodes, Unique, IndexMatches, WellFormedBatch, ApplyBatch, Holds, SortedSeq, Elements;
      hide DifferOnlyOn, OldOrNew, ValueAt, EntryValue, BatchOutcome, Rewrites, Outcome, Sound, Carries;
      hide DecodeRecord, EncodeRecord, EncodeFile, Synced, Dirties;
      ghost var before := store.data;
      CarriedKeys(changes, SortedSeq(batch.Keys), batch);
      AcceptedOutcome(batch, before);
      var previous := Remember(changes);
      assert previous.Keys == batch.Keys;
      var ok := WriteBatch(batch, changes, durable);
      if !ok {
        var restored := Restore(previous, before, batch);
        fenced, indexed := true, false;
        FencedOutcome(batch, store.data, before, restored);
        return Fenced(restored);
      }
      Reindex(batch, before);
      return Applied;
    }

    /** All of the batch or none of it, unless the write itself is in doubt. */
    method ApplyLocked(batch: Batch, durable: bool) returns (s: Status)
      requires Valid() && !fenced
      modifies this`owners, this`names, this`indexed, this`fenced, store`data, store`dirty, store.disk
      ensures Valid() && (s.Fenced? <==> fenced)
      ensures BatchOutcome(s, batch, store.data, old(store.data))
      ensures s == Applied ==> indexed && (durable ==> !store.dirty)
      ensures s == Refused ==> store.dirty == old(store.dirty)
      ensures Caused(s, Snap(), old(Snap()))
      ensures durable ==> Durably(s, old(store.dirty)
                || Dirties(batch, old(store.data)), Snap(), old(Snap()), store.crc)
      ensures old(store.disk.trace) <= store.disk.trace
      ensures !durable || s == Refused ==>
                store.disk.s == old(store.disk.s) && store.disk.trace == old(store.disk.trace)
      ensures Rewrites(store.disk.trace, |old(store.disk.trace)|, store.disk.s, old(store.disk.s), store.crc,
                       Outcome(batch, old(store.data)))
    {
      hide Acceptable, BatchOutcome, Good, IndexMatches, Holds, ApplyBatch, Rewrites, Carries;
      ghost var before := store.data;
      NothingWritten(store.disk.trace, store.disk.s, store.crc, Outcome(batch, before));
      var changes := CheckBatch(batch);
      if changes.None? {
        RefusedOutcome(batch, before);
        return Refused;
      }
      s := Commit(batch, changes.value, durable);
    }

    method Apply(batch: Batch) returns (s: Status)
      requires Valid()
      modifies this`owners, this`names, this`indexed, this`fenced, store`data, store`dirty, store.disk
      ensures Valid() && Stays(s, old(fenced), fenced)
      ensures old(fenced) ==> FencedOff(Snap(), old(Snap()))
      ensures Caused(s, Snap(), old(Snap()))
      ensures s == Refused ==> store.dirty == old(store.dirty)
      ensures !old(fenced) ==>
                Durably(s, old(store.dirty) || Dirties(batch, old(store.data)), Snap(), old(Snap()), store.crc)
      ensures !old(fenced) ==> BatchOutcome(s, batch, store.data, old(store.data))
      ensures s == Applied ==> indexed && !store.dirty
      ensures old(store.disk.trace) <= store.disk.trace
      ensures s == Refused ==> store.disk.s == old(store.disk.s) && store.disk.trace == old(store.disk.trace)
      ensures Rewrites(store.disk.trace, |old(store.disk.trace)|, store.disk.s, old(store.disk.s), store.crc,
                       Outcome(batch, old(store.data)))
    {
      hide BatchOutcome, Rewrites, Outcome, Good, IndexMatches, Sound, Holds;
      NothingWritten(store.disk.trace, store.disk.s, store.crc, Outcome(batch, store.data));
      if fenced {
        return Fenced(true);
      }
      s := ApplyLocked(batch, true);
    }

    /** A creation is refused when the name is already stored. */
    method Create(record: Record) returns (s: Status)
      requires Valid()
      modifies this`owners, this`names, this`indexed, this`fenced, store`data, store`dirty, store.disk
      ensures Valid() && Stays(s, old(fenced), fenced)
      ensures old(fenced) ==> FencedOff(Snap(), old(Snap()))
      ensures Caused(s, Snap(), old(Snap()))
      ensures s == Refused ==> store.dirty == old(store.dirty)
      ensures !old(fenced) && record.name in old(store.data) ==> s == Refused && store.data == old(store.data)
      ensures !old(fenced) && record.name !in old(store.data) ==>
                BatchOutcome(s, map[record.name := Some(record)], store.data, old(store.data))
      ensures s == Applied ==> indexed && !store.dirty
      ensures !old(fenced) ==> Durably(s, true, Snap(), old(Snap()), store.crc)
      ensures s == Refused ==> store.disk.s == old(store.disk.s) && store.disk.trace == old(store.disk.trace)
      ensures old(store.disk.trace) <= store.disk.trace
      ensures Rewrites(store.disk.trace, |old(store.disk.trace)|, store.disk.s, old(store.disk.s), store.crc,
                       Outcome(map[record.name := Some(record)], old(store.data)))
    {
      hide BatchOutcome, Rewrites, Outcome, Good, IndexMatches, Sound, Holds;
      NothingWritten(store.disk.trace, store.disk.s, store.crc, Outcome(map[record.name := Some(record)], store.data));
      if fenced {
        return Fenced(true);
      }
      var existing := store.Get(record.name);
      if existing.Some? {
        return Refused;
      }
      s := ApplyLocked(map[record.name := Some(record)], true);
    }

    /**
     Buffers mutable metadata on the stored incarnation, all of it or nothing; the
     disk is not touched, and no record ever changes identity.
     */
    method UpdateMetadata(u: Update) returns (s: Status)
      requires Valid()
      modifies this`owners, this`names, this`indexed, this`fenced, store`data, store`dirty, store.disk
      ensures Valid() && Stays(s, old(fenced), fenced)
      ensures store.disk.s == old(store.disk.s) && store.disk.trace == old(store.disk.trace)
      ensures old(fenced) ==> FencedOff(Snap(), old(Snap()))
      ensures Caused(s, Snap(), old(Snap()))
      ensures s == Refused ==> store.dirty == old(store.dirty)
      ensures !old(fenced) ==> UpdateOutcome(s, u, store.data, old(store.data))
      ensures Good(old(store.data)) ==> OnlyMetadata(old(store.data), store.data, {u.name})
    {
      hide DecodeRecord, EncodeRecord, ApplyBatch, Good, IndexMatches, AllZero, Updated, Holds, Sound;
      hide BatchOutcome, UpdateOutcome, OnlyMetadata;
      ghost var before := store.data;
      if Good(before) {
        UpdateKeepsIdentity(before, u);
      }
      if fenced {
        return Fenced(true);
      }
      var value := store.Get(u.name);
      if value.None? {
        UpdateWithoutRecord(u, before);
        return Refused;
      }
      var stored := RecordCodec.Decode(u.name, value.value);
      if stored.None? || AllZero(u.incarnation) || stored.value.record.incarnation != u.incarnation {
        UpdateWithoutRecord(u, before);
        return Refused;
      }
      var current := stored.value.record;
      s := ApplyLocked(map[current.name := Some(Updated(current, u))], false);
      UpdateThroughBatch(s, u, store.data, before, current);
      if Good(before) {
        UpdateOutcomeIsGood(s, u, store.data, before);
      }
    }

    /** Makes every buffered mutation durable; a failure fences. */
    method Sync() returns (s: Status)
      requires Valid()
      modifies this`indexed, this`fenced, store`dirty, store.disk
      ensures Valid() && Stays(s, old(fenced), fenced) && s != Refused
      ensures s == Applied ==> !store.dirty
      ensures old(fenced) ==> FencedOff(Snap(), old(Snap()))
      ensures Caused(s, Snap(), old(Snap()))
      ensures !old(fenced) ==> Durably(s, old(store.dirty), Snap(), old(Snap()), store.crc)
      ensures old(store.disk.trace) <= store.disk.trace
      ensures Rewrites(store.disk.trace, |old(store.disk.trace)|, store.disk.s, old(store.disk.s), store.crc,
                store.data)
    {
      hide EncodeFile, Good, IndexMatches;
      if fenced {
        return Fenced(true);
      }
      var ok := PortSync();
      if !ok {
        fenced, indexed := true, false;
        return Fenced(true);
      }
      return Applied;
    }

    /** Closing a fenced persister never writes. */
    method Close() returns (ok: bool)
      requires Valid()
      modifies store`dirty, store`closed, store.disk
      ensures Valid() && store.closed
      ensures fenced ==> !ok && FencedOff(Snap(), old(Snap()))
      ensures old(store.disk.faults) <= store.disk.faults && (!ok ==>
                fenced || old(store.disk.faults) < store.disk.faults)
      ensures ok && !old(store.closed) ==>
                !store.dirty && Synced(old(store.dirty), store.disk.s, old(store.disk.s), EncodeFile(store.crc,
                    store.data))
      ensures old(store.closed) ==> store.disk.s == old(store.disk.s) && store.disk.trace == old(store.disk.trace)
      ensures fenced || !old(store.dirty) ==>
                store.disk.s == old(store.disk.s) && store.disk.trace == old(store.disk.trace)
      ensures old(store.disk.trace) <= store.disk.trace
      ensures Rewrites(store.disk.trace, |old(store.disk.trace)|, store.disk.s, old(store.disk.s), store.crc,
                store.data)
    {
      hide EncodeFile, Good, IndexMatches;
      if fenced {
        ok := store.CloseWithoutSync();
        return false;
      }
      ok := store.Close();
    }
  }

  lemma CarriedKeys(cs: seq<Mutation>, keys: seq<Name>, batch: Batch)
    requires Carries(cs, keys, batch) && Elements(keys) == batch.Keys
    ensures forall i :: 0 <= i < |cs| ==> cs[i].key in batch && cs[i].value == EntryValue(batch[cs[i].key])
    ensures forall key :: key in batch ==> exists i :: 0 <= i < |cs| && cs[i].key == key
  {
    forall key | key in batch ensures exists i :: 0 <= i < |cs| && cs[i].key == key {
      assert key in Elements(keys);
      var i :| 0 <= i < |keys| && keys[i] == key;
      assert cs[i].key == key;
    }
  }

  lemma Undecodable(data: Table, name: Name)
    requires name in data && DecodeRecord(name, data[name]).None?
    ensures !Good(data)
  {
  }

  lemma OnlyAll(data: Table)
    ensures Only(data, data.Keys) == data
  {
  }

  lemma SortedEnds(keys: seq<Name>, s: set<Name>)
    requires keys == SortedSeq(s)
    ensures Elements(keys[..0]) == {} && Elements(keys[..|keys|]) == s
  {
    assert keys[..|keys|] == keys;
  }

  lemma SortedPosition(keys: seq<Name>, s: set<Name>, i: nat)
    requires keys == SortedSeq(s) && i < |keys|
    ensures keys[i] in s && keys[i] !in Elements(keys[..i])
    ensures Elements(keys[..i + 1]) == Elements(keys[..i]) + {keys[i]}
  {
    hide Less, SortedSeq;
    assert keys[i] in Elements(keys);
    if keys[i] in Elements(keys[..i]) {
      var j :| 0 <= j < i && keys[..i][j] == keys[i];
      assert Less(keys[j], keys[i]);
      LessTotal(keys[i], keys[i]);
    }
    forall e | e in Elements(keys[..i + 1]) ensures e in Elements(keys[..i]) + {keys[i]} {
      var j :| 0 <= j <= i && keys[..i + 1][j] == e;
      assert j < i ==> keys[..i][j] == e;
    }
    forall e | e in Elements(keys[..i]) ensures e in Elements(keys[..i + 1]) {
      var j :| 0 <= j < i && keys[..i][j] == e;
      assert keys[..i + 1][j] == e;
    }
    assert keys[..i + 1][i] == keys[i];
  }
}

/**
 The whole-file store: an in-memory table persisted by writing a temporary file,
 syncing it, renaming it over the main file and syncing the directory.
 */
module KvStore {
  import opened Wire
  import opened Ordering
  import opened Envelope
  import opened KvCodec
  import opened Disk

  /** The file `raw` holds the table `m`, provided `m` can be written at all. */
  ghost predicate Holds(crc: Checksum, raw: bytes, m: Table) {
    FileFits(m) ==> DecodeFile(crc, raw) == Some(m)
  }

  lemma EncodedHolds(crc: Checksum, m: Table)
    ensures Holds(crc, EncodeFile(crc, m), m)
  {
    FileRoundTrip(crc, m);
  }

  /**
   A state the disk may pass through while `next` replaces what `d0` held: the
   main file and every survivor are one of the old ones or exactly `next`.
   */
  ghost predicate Replacing(d: DiskState, d0: DiskState, next: bytes) {
    && Sound(d)
    && d.survivors <= d0.survivors + {Some(next)}
    && (d.main == d0.main || d.main == Some(File(next, true)))
  }

  /**
   What a successful sync leaves: only the new file, when there was something to write; otherwise
   the disk as it was.
   */
  ghost predicate Synced(wrote: bool, d: DiskState, d0: DiskState, file: bytes) {
    if wrote then Settled(d) && Contents(d.main) == Some(file) else d == d0
  }

  ghost predicate AllReplacing(ds: seq<DiskState>, from: nat, d0: DiskState, next: bytes) {
    forall i :: from <= i < |ds| ==> Replacing(ds[i], d0, next)
  }

  /**
   A crash at any step of a sync leaves what could have survived before it, or
   the whole next table, never a mixture: for a store that was settled, the whole
   previous table or the whole next one.
   */
  lemma CrashDuringSyncIsAtomic(crc: Checksum, d: DiskState, d0: DiskState, d': DiskState, next: Table)
    requires Replacing(d, d0, EncodeFile(crc, next)) && CrashedTo(d, d')
    ensures || Contents(d'.main) in d0.survivors
            || (Contents(d'.main) == Some(EncodeFile(crc, next)) && Holds(crc, d'.main.value.content, next))
    ensures forall prev | Settled(d0) && FileFits(prev) && FileFits(next) && Holds(crc, d0.main.value.content, prev) ::
              d'.main.Some? && DecodeFile(crc, d'.main.value.content) in {Some(prev), Some(next)}
  {
    hide EncodeFile, DecodeFile, FileFits;
    EncodedHolds(crc, next);
    assert Contents(d'.main) in d.survivors;
  }

  /**
   After a rename whose directory was never synced the main file holds `next`, yet
   the old file may still be what a crash leaves: a store opened there is clean and
   a sync has nothing to write.
   */
  lemma CleanFileMayNotSurvive(d0: DiskState, next: bytes) returns (d: DiskState, d': DiskState)
    requires Settled(d0) && next != d0.main.value.content
    ensures d == Renamed(d0.(tmp := Some(File(next, true))))
    ensures Sound(d) && !Settled(d) && d.main == Some(File(next, true))
    ensures CrashedTo(d, d') && d'.main == d0.main
    ensures Settled(DirectorySynced(d)) && !CrashedTo(DirectorySynced(d), d')
  {
    d := Renamed(d0.(tmp := Some(File(next, true))));
    d' := DiskState(d0.main, None, {Contents(d0.main)}, false);
    assert Contents(d0.main) in d.survivors && Contents(d.main) != Contents(d0.main);
  }

  class Store {
    const crc: Checksum
    const disk: Volume
    var data: Table
    var dirty: bool
    var closed: bool

    ghost predicate Valid()
      reads this, disk
    {
      && Sound(disk.s)
      && (!dirty ==> disk.s.main.Some? && Holds(crc, disk.s.main.value.content, data))
    }

    constructor Make(crc: Checksum, disk: Volume, data: Table, dirty: bool)
      ensures this.crc == crc && this.disk == disk && this.data == data && this.dirty == dirty && !closed
    {
      this.crc, this.disk, this.data, this.dirty, closed := crc, disk, data, dirty, false;
    }

    /**
     Starts empty when there is no file, and fails closed, leaving the disk as it
     was, when there is one that does not decode.
     */
    static method Open(crc: Checksum, disk: Volume) returns (store: Option<Store>)
      requires Sound(disk.s)
      modifies disk
      ensures old(disk.trace) <= disk.trace
      ensures store.Some? ==> fresh(store.value) && store.value.Valid()
      ensures store.Some? ==> store.value.disk == disk && store.value.crc == crc
      ensures store.Some? ==> !store.value.dirty && !store.value.closed
      ensures old(disk.faults) <= disk.faults
      ensures store.None? ==>
                old(disk.faults) < disk.faults || (old(disk.s.main).Some?
                    && DecodeFile(crc, old(disk.s.main).value.content).None?)
      ensures old(disk.s.main).Some? ==>
                && disk.s == old(disk.s) && disk.trace == old(disk.trace)
                && (store.Some? ==> DecodeFile(crc, disk.s.main.value.content) == Some(store.value.data))
      ensures old(disk.s.main).Some? && !TrailerMatches(crc, old(disk.s.main).value.content) ==> store.None?
      ensures old(disk.s.main).None? ==>
                && AllReplacing(disk.trace, |old(disk.trace)|, old(disk.s), EncodeFile(crc, map[]))
                && Replacing(disk.s, old(disk.s), EncodeFile(crc, map[]))
                && (store.Some? ==> store.value.data == map[] && Settled(disk.s))
    {
      hide EncodeFile, DecodeFile, FileFits;
      var locked := disk.Attempt();
      if !locked {
        return None;
      }
      if disk.s.main.None? {
        var s := new Store.Make(crc, disk, map[], true);
        var ok := s.SyncLocked();
        if !ok {
          return None;
        }
        return Some(s);
      }
      var readable := disk.Attempt();
      if !readable {
        return None;
      }
      var decoded := KvCodec.Decode(crc, disk.s.main.value.content);
      if decoded.None? {
        return None;
      }
      AcceptedTrailer(crc, disk.s.main.value.content);
      var s := new Store.Make(crc, disk, decoded.value, false);
      return Some(s);
    }

    method Get(key: bytes) returns (value: Option<bytes>)
      ensures value == if key in data then Some(data[key]) else None
    {
      return if key in data then Some(data[key]) else None;
    }

    method Set(key: bytes, value: bytes) returns (ok: bool)
      requires Valid()
      modifies this`data, this`dirty
      ensures Valid() && ok == !closed
      ensures data == if ok then old(data)[key := value] else old(data)
      ensures dirty == (old(dirty) || ok)
    {
      if closed {
        return false;
      }
      data := data[key := value];
      dirty := true;
      return true;
    }

    method Delete(key: bytes) returns (ok: bool)
      requires Valid()
      modifies this`data, this`dirty
      ensures Valid() && ok == !closed
      ensures data == if ok then old(data) - {key} else old(data)
      ensures dirty == (old(dirty) || (ok && key in old(data)))
    {
      if closed {
        return false;
      }
      if key in data {
        data := data - {key};
        dirty := true;
      }
      return true;
    }

    /** The entries in key order, as `Range` visits them. */
    method Entries() returns (keys: seq<bytes>)
      ensures keys == SortedSeq(data.Keys)
    {
      keys := SortKeys(data.Keys);
    }

    /**
     On success disk equals memory even when nothing was written; every disk
     state on the way is a clean replacement; and success means durability
     exactly when something was written or the disk was already settled.
     */
    method Sync() returns (ok: bool)
      requires Valid()
      modifies this`dirty, disk
      ensures Valid() && (ok ==> !closed && !dirty)
      ensures old(disk.trace) <= disk.trace
      ensures AllReplacing(disk.trace, |old(disk.trace)|, old(disk.s), EncodeFile(crc, data))
      ensures Replacing(disk.s, old(disk.s), EncodeFile(crc, data))
      ensures closed || !old(dirty) ==> disk.s == old(disk.s) && disk.trace == old(disk.trace) && dirty == old(dirty)
      ensures !closed && !old(dirty) ==> ok
      ensures ok ==> Synced(old(dirty), disk.s, old(disk.s), EncodeFile(crc, data))
      ensures ok ==> (Settled(disk.s) <==> old(dirty) || Settled(old(disk.s)))
      ensures old(disk.faults) <= disk.faults && (!ok ==> closed || old(disk.faults) < disk.faults)
    {
      if closed {
        return false;
      }
      ok := SyncLocked();
    }

    method SyncLocked() returns (ok: bool)
      requires Valid()
      modifies this`dirty, disk
      ensures Valid() && (ok ==> !dirty)
      ensures old(disk.trace) <= disk.trace
      ensures AllReplacing(disk.trace, |old(disk.trace)|, old(disk.s), EncodeFile(crc, data))
      ensures Replacing(disk.s, old(disk.s), EncodeFile(crc, data))
      ensures !old(dirty) ==> ok && !dirty && disk.s == old(disk.s) && disk.trace == old(disk.trace)
      ensures ok && old(dirty) ==> Settled(disk.s) && disk.s.main.value.content == EncodeFile(crc, data)
      ensures old(disk.faults) <= disk.faults && (!ok ==> old(disk.faults) < disk.faults)
    {
      hide EncodeFile, DecodeFile, FileFits;
      if !dirty {
        return true;
      }
      var next := KvCodec.Encode(crc, data);
      EncodedHolds(crc, data);
      ok := Stage(next);
      if !ok {
        return;
      }
      ok := disk.RenameTmp();
      if !ok {
        return;
      }
      ok := disk.SyncDirectory();
      if !ok {
        return;
      }
      dirty := false;
    }

    /** Writes the whole temporary file and syncs it; nothing but that file is touched. */
    method Stage(next: bytes) returns (ok: bool)
      requires Sound(disk.s)
      modifies disk
      ensures old(disk.trace) <= disk.trace
      ensures disk.s.(tmp := old(disk.s.tmp)) == old(disk.s)
      ensures forall i :: |old(disk.trace)| <= i < |disk.trace| ==>
                disk.trace[i].(tmp := old(disk.s.tmp)) == old(disk.s)
      ensures ok ==> disk.s.tmp == Some(File(next, true))
      ensures old(disk.faults) <= disk.faults && (!ok ==> old(disk.faults) < disk.faults)
    {
      ok := disk.CreateTmp();
      if !ok {
        return;
      }
      ok := WriteAll(next);
      if !ok {
        return;
      }
      ok := disk.SyncTmp();
      if !ok {
        return;
      }
      ok := disk.CloseTmp();
    }

    method WriteAll(bytes: bytes) returns (ok: bool)
      requires Sound(disk.s) && disk.s.tmp == Some(File([], false))
      modifies disk
      ensures old(disk.trace) <= disk.trace
      ensures disk.s.(tmp := old(disk.s.tmp)) == old(disk.s)
      ensures forall i :: |old(disk.trace)| <= i < |disk.trace| ==>
                disk.trace[i].(tmp := old(disk.s.tmp)) == old(disk.s)
      ensures ok ==> disk.s.tmp.Some? && disk.s.tmp.value.content == bytes
      ensures old(disk.faults) <= disk.faults && (!ok ==> old(disk.faults) < disk.faults)
    {
      var left := bytes;
      while |left| > 0
        invariant disk.s.tmp.Some? && disk.s.tmp.value.content + left == bytes
        invariant disk.s.(tmp := old(disk.s.tmp)) == old(disk.s)
        invariant old(disk.trace) <= disk.trace && old(disk.faults) <= disk.faults
        invariant forall i :: |old(disk.trace)| <= i < |disk.trace| ==>
                    disk.trace[i].(tmp := old(disk.s.tmp)) == old(disk.s)
        decreases |left|
      {
        var n;
        ok, n := disk.WriteTmp(left);
        if !ok {
          return;
        }
        if n == 0 {
          return false;
        }
        left := left[n..];
      }
      return true;
    }

    /** Syncs what is buffered, then refuses further use. */
    method Close() returns (ok: bool)
      requires Valid()
      modifies this`dirty, this`closed, disk
      ensures Valid() && closed
      ensures old(disk.trace) <= disk.trace
      ensures AllReplacing(disk.trace, |old(disk.trace)|, old(disk.s), EncodeFile(crc, data))
      ensures Replacing(disk.s, old(disk.s), EncodeFile(crc, data))
      ensures old(closed) || !old(dirty) ==> disk.s == old(disk.s) && disk.trace == old(disk.trace)
      ensures ok && !old(closed) ==> !dirty && Synced(old(dirty), disk.s, old(disk.s), EncodeFile(crc, data))
      ensures old(disk.faults) <= disk.faults && (!ok ==> old(disk.faults) < disk.faults)
    {
      if closed {
        return true;
      }
      ok := SyncLocked();
      closed := true;
      var released := disk.Attempt();
      ok := ok && released;
    }

    method CloseWithoutSync() returns (ok: bool)
      modifies this`closed, disk`faults
      ensures closed && old(disk.faults) <= disk.faults
    {
      if closed {
        return true;
      }
      closed := true;
      ok := disk.Attempt();
    }
  }

  /**
   The same on the store itself: opened after a rename whose directory was never
   synced, it syncs with success and the old file may still be all a crash leaves.
   */
  method CleanSyncMayLoseTheFile(crc: Checksum, disk: Volume, ghost d0: DiskState, ghost next: bytes)
    returns (store: Option<Store>, ok: bool, ghost d': DiskState)
    requires Settled(d0) && next != d0.main.value.content && DecodeFile(crc, next).Some?
    requires disk.s == Renamed(d0.(tmp := Some(File(next, true))))
    modifies disk
    ensures store.None? ==> old(disk.faults) < disk.faults
    ensures store.Some? ==> ok && Some(store.value.data) == DecodeFile(crc, next)
    ensures disk.s == old(disk.s) && CrashedTo(disk.s, d') && d'.main == d0.main
  {
    hide DecodeFile, EncodeFile, FileFits;
    ghost var d;
    d, d' := CleanFileMayNotSurvive(d0, next);
    ok := false;
    store := Store.Open(crc, disk);
    if store.Some? {
      ok := store.value.Sync();
    }
  }
}
